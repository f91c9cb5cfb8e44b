/** The command line: dispatch on the first argument (`main`), the `list`
    command (`listSortedBranches`) and the whole run of a command against
    one snapshot of the repository. */
module Cli {
  import opened Wrappers
  import opened Strings
  import opened Seqs
  import opened BranchSource
  import opened Selection
  import opened Deletion

  predicate Sorted(s: seq<string>)
  {
    forall i, j :: 0 <= i < j < |s| ==> LessEq(s[i], s[j])
  }

  function Insert(x: string, s: seq<string>): (r: seq<string>)
    ensures |r| == |s| + 1
  {
    if s == [] then [x]
    else if LessEq(x, s[0]) then [x] + s
    else [s[0]] + Insert(x, s[1..])
  }

  lemma {:induction false} InsertPermutes(x: string, s: seq<string>)
    ensures multiset(Insert(x, s)) == multiset(s) + multiset{x}
  {
    if s != [] && !LessEq(x, s[0]) {
      InsertPermutes(x, s[1..]);
      assert s == [s[0]] + s[1..];
    }
  }

  lemma {:induction false} InsertCorrect(x: string, s: seq<string>)
    requires Sorted(s)
    ensures Sorted(Insert(x, s))
    ensures multiset(Insert(x, s)) == multiset(s) + multiset{x}
  {
    InsertPermutes(x, s);
    if s != [] {
      if LessEq(x, s[0]) {
        forall j | 1 <= j < |s| ensures LessEq(x, s[j]) {
          LessEqTransitive(x, s[0], s[j]);
        }
      } else {
        var rest := s[1..];
        InsertCorrect(x, rest);
        LessEqTotal(x, s[0]);
        var r := Insert(x, rest);
        forall j | 0 <= j < |r| ensures LessEq(s[0], r[j]) {
          assert r[j] in multiset(rest) + multiset{x};
          if r[j] != x {
            assert r[j] in rest;
          }
        }
      }
    }
  }

  /** `sort.Strings`, as a value: insertion into the sorted rest. */
  function SortStrings(s: seq<string>): (r: seq<string>)
    ensures |r| == |s|
  {
    if s == [] then [] else Insert(s[0], SortStrings(s[1..]))
  }

  /** The sorted list is ordered and holds exactly the same names, as often. */
  lemma {:induction false} SortStringsCorrect(s: seq<string>)
    ensures Sorted(SortStrings(s))
    ensures multiset(SortStrings(s)) == multiset(s)
  {
    if s != [] {
      SortStringsCorrect(s[1..]);
      InsertCorrect(s[0], SortStrings(s[1..]));
      assert s == [s[0]] + s[1..];
    }
  }

  /** The first element of a sorted list is below every element of it. */
  lemma SortedHeadIsLeast(a: seq<string>, x: string)
    requires Sorted(a) && x in a
    ensures LessEq(a[0], x)
  {
    var k :| 0 <= k < |a| && a[k] == x;
    if k == 0 {
      LessEqReflexive(x);
    }
  }

  lemma SortedTail(a: seq<string>)
    requires Sorted(a) && a != []
    ensures Sorted(a[1..])
  {
  }

  lemma MultisetTail(a: seq<string>)
    requires a != []
    ensures multiset(a[1..]) == multiset(a) - multiset{a[0]}
  {
    assert a == [a[0]] + a[1..];
  }

  /** A sorted permutation is unique, so any correct sorting algorithm gives
      the list this model computes. */
  lemma {:induction false} SortedPermutationUnique(a: seq<string>, b: seq<string>)
    requires Sorted(a) && Sorted(b) && multiset(a) == multiset(b)
    ensures a == b
  {
    if a != [] {
      assert a[0] in multiset(b);
      assert b != [];
      assert a[0] == b[0] by {
        assert b[0] in multiset(a);
        SortedHeadIsLeast(b, a[0]);
        SortedHeadIsLeast(a, b[0]);
        LessEqAntisymmetric(a[0], b[0]);
      }
      MultisetTail(a);
      MultisetTail(b);
      SortedTail(a);
      SortedTail(b);
      SortedPermutationUnique(a[1..], b[1..]);
      assert a == [a[0]] + a[1..] && b == [b[0]] + b[1..];
    }
  }

  /** One line of the `list` output: its 1-based number and the branch. */
  datatype NumberedBranch = NumberedBranch(number: nat, name: string)

  function Names(listing: seq<NumberedBranch>): (names: seq<string>)
    ensures |names| == |listing|
  {
    seq(|listing|, i requires 0 <= i < |listing| => listing[i].name)
  }

  /** `listSortedBranches` after the listing: sort the names and number them
      from 1. */
  method ListSortedBranches(branches: seq<string>) returns (listing: seq<NumberedBranch>)
    ensures |listing| == |branches|
    ensures forall i :: 0 <= i < |listing| ==> listing[i].number == i + 1
    ensures Sorted(Names(listing))
    ensures multiset(Names(listing)) == multiset(branches)
  {
    var sorted := SortStrings(branches);
    SortStringsCorrect(branches);
    listing := [];
    for i := 0 to |sorted|
      invariant |listing| == i
      invariant forall k :: 0 <= k < i ==> listing[k] == NumberedBranch(k + 1, sorted[k])
    {
      listing := listing + [NumberedBranch(i + 1, sorted[i])];
    }
    assert Names(listing) == sorted;
  }

  /** What a run of the program was asked to do. */
  datatype Command = List | Keep(keep: seq<string>, force: bool) | Delete(pattern: string, force: bool)

  /** The usage errors `main` stops on with `log.Fatalf`. */
  datatype Usage = MissingCommand | KeepWithoutBranches | DeleteWithoutPattern | UnknownCommand

  /** The `switch` of `main`. */
  function ParseArgs(args: seq<string>): (r: Result<Command, Usage>)
    ensures r.Success? <==>
              (|args| > 0 && (args[0] == "list" || (args[0] in {"keep", "Keep", "delete", "Delete"} && |args| >= 2)))
    ensures r.Success? ==> (r.value.List? <==> args[0] == "list")
                           && (r.value.Keep? <==> args[0] in {"keep", "Keep"})
                           && (r.value.Delete? <==> args[0] in {"delete", "Delete"})
    ensures r.Success? && !r.value.List? ==> (r.value.force <==> args[0] in {"Keep", "Delete"})
    ensures r.Success? && r.value.Keep? ==> r.value.keep == args[1..] && args[0] in {"keep", "Keep"}
    ensures r.Success? && r.value.Delete? ==> |args| >= 2 && r.value.pattern == args[1] && args[0] in {"delete", "Delete"}
  {
    if |args| == 0 then Failure(MissingCommand)
    else if args[0] == "list" then Success(List)
    else if args[0] == "keep" || args[0] == "Keep" then
      if |args| < 2 then Failure(KeepWithoutBranches) else Success(Keep(args[1..], args[0] == "Keep"))
    else if args[0] == "delete" || args[0] == "Delete" then
      if |args| < 2 then Failure(DeleteWithoutPattern) else Success(Delete(args[1], args[0] == "Delete"))
    else Failure(UnknownCommand)
  }

  /** How a run ends. `UsageError` and `ListingFailed` exit with status 1. */
  datatype RunResult =
    | UsageError(usage: Usage)
    | ListingFailed(error: string)
    | Listed(listing: seq<NumberedBranch>)
    | NoMatch
    | Finished(outcome: Outcome, protectedNotice: bool)

  /** The selection rule of a keep or delete command. */
  function Selects(cmd: Command): string -> bool
    requires !cmd.List?
  {
    if cmd.Keep? then KeepSelects(cmd.keep) else Matches(cmd.pattern)
  }

  /** The branches a keep or delete command may delete: the selected ones,
      without the checked-out branch, in listing order. */
  function Targets(cmd: Command, snap: Snapshot): seq<string>
    requires !cmd.List?
  {
    Filter(Filter(snap.branches, Selects(cmd)), IsNotCurrent(snap.current))
  }

  /** The git commands a run issued. */
  function Attempted(r: RunResult): seq<seq<string>>
  {
    if r.Finished? && r.outcome.Deleted? then r.outcome.report.attempted else []
  }

  /** Every target is a listed branch that the command selects and that is
      not checked out; a keep target is outside the keep list, a delete
      target matches the pattern. */
  lemma TargetsAreSafe(cmd: Command, snap: Snapshot, b: string)
    requires !cmd.List?
    ensures b in Targets(cmd, snap) <==> b in snap.branches && Selects(cmd)(b) && b != snap.current
    ensures b in Targets(cmd, snap) && cmd.Keep? ==> b !in cmd.keep && b != ""
    ensures b in Targets(cmd, snap) && cmd.Delete? ==> MatchRule(ParsePattern(cmd.pattern), b)
  {
    FilterMembership(snap.branches, Selects(cmd), b);
    FilterMembership(Filter(snap.branches, Selects(cmd)), IsNotCurrent(snap.current), b);
  }

  /** `keepBranches` after its listing: every listed branch outside the
      keep list is a candidate; confirm and delete. */
  method KeepBranches(keep: seq<string>, force: bool, snap: Snapshot, stdin: seq<string>, git: Git)
    returns (result: RunResult)
    ensures result.Finished?
    ensures Settles(Filter(snap.branches, KeepSelects(keep)), snap.current, force, stdin, git,
                    result.outcome, result.protectedNotice)
    ensures var targets := Filter(Filter(snap.branches, KeepSelects(keep)), IsNotCurrent(snap.current));
            Attempted(result) == if targets != [] && Decision(stdin) == Some(true)
                                 then Commands(targets, force) else []
  {
    var toDelete := SelectForKeep(snap.branches, keep);
    var outcome, notice := ConfirmAndDeleteBranches(toDelete, snap.current, force, stdin, git);
    result := Finished(outcome, notice);
  }

  /** `deleteBranchesByPattern` after its listing: stop when the pattern
      matches nothing, otherwise confirm and delete the matches. */
  method DeleteBranchesByPattern(pattern: string, force: bool, snap: Snapshot, stdin: seq<string>, git: Git)
    returns (result: RunResult)
    ensures result.NoMatch? <==> Filter(snap.branches, Matches(pattern)) == []
    ensures result.NoMatch? || result.Finished?
    ensures result.Finished? ==>
              Settles(Filter(snap.branches, Matches(pattern)), snap.current, force, stdin, git,
                      result.outcome, result.protectedNotice)
    ensures var targets := Filter(Filter(snap.branches, Matches(pattern)), IsNotCurrent(snap.current));
            Attempted(result) == if targets != [] && Decision(stdin) == Some(true)
                                 then Commands(targets, force) else []
  {
    var toDelete := SelectByPattern(snap.branches, pattern);
    result := ConfirmUnlessEmpty(toDelete, snap.current, force, stdin, git);
  }

  /** The tail of `deleteBranchesByPattern`: report that nothing matched, or
      go on to confirmation. */
  method ConfirmUnlessEmpty(toDelete: seq<string>, current: string, force: bool, stdin: seq<string>, git: Git)
    returns (result: RunResult)
    ensures result.NoMatch? <==> toDelete == []
    ensures result.NoMatch? || result.Finished?
    ensures result.Finished? ==> Settles(toDelete, current, force, stdin, git, result.outcome, result.protectedNotice)
    ensures var targets := Filter(toDelete, IsNotCurrent(current));
            Attempted(result) == if targets != [] && Decision(stdin) == Some(true)
                                 then Commands(targets, force) else []
  {
    if |toDelete| == 0 {
      return NoMatch;
    }
    var outcome, notice := ConfirmAndDeleteBranches(toDelete, current, force, stdin, git);
    result := Finished(outcome, notice);
  }

  /** The `switch` of `main` once the arguments are accepted and the
      branches are listed: list, or select, confirm and delete. */
  method Dispatch(cmd: Command, snap: Snapshot, stdin: seq<string>, git: Git) returns (result: RunResult)
    ensures result.Listed? <==> cmd.List?
    ensures cmd.List? ==>
              && |result.listing| == |snap.branches|
              && (forall i :: 0 <= i < |result.listing| ==> result.listing[i].number == i + 1)
              && Sorted(Names(result.listing))
              && multiset(Names(result.listing)) == multiset(snap.branches)
    ensures result.NoMatch? <==> cmd.Delete? && Filter(snap.branches, Matches(cmd.pattern)) == []
    ensures !cmd.List? ==> result.NoMatch? || result.Finished?
    ensures !cmd.List? && result.Finished? ==>
              Settles(Filter(snap.branches, Selects(cmd)), snap.current, cmd.force, stdin, git,
                      result.outcome, result.protectedNotice)
    ensures Attempted(result) ==
              if !cmd.List? && Targets(cmd, snap) != [] && Decision(stdin) == Some(true)
              then Commands(Targets(cmd, snap), cmd.force) else []
  {
    if cmd.List? {
      var listing := ListSortedBranches(snap.branches);
      result := Listed(listing);
    } else if cmd.Keep? {
      result := KeepBranches(cmd.keep, cmd.force, snap, stdin, git);
      assert Selects(cmd) == KeepSelects(cmd.keep);
    } else {
      result := DeleteBranchesByPattern(cmd.pattern, cmd.force, snap, stdin, git);
      assert Selects(cmd) == Matches(cmd.pattern);
    }
  }

  /** One run of the program: check the arguments, take the listing that
      `git branch` printed (or the error it failed with), then list, or
      select, confirm and delete. */
  method Run(args: seq<string>, branchOutput: Result<string, string>, stdin: seq<string>, git: Git)
    returns (result: RunResult)
    ensures result.UsageError? <==> ParseArgs(args).Failure?
    ensures ParseArgs(args).Failure? ==> result == UsageError(ParseArgs(args).error)
    ensures result.ListingFailed? <==> ParseArgs(args).Success? && branchOutput.Failure?
    ensures ParseArgs(args).Success? && branchOutput.Failure?
            ==> result == ListingFailed(branchOutput.error)
    ensures result.Listed? <==> ParseArgs(args) == Success(List) && branchOutput.Success?
    ensures ParseArgs(args) == Success(List) && branchOutput.Success? ==>
              && |result.listing| == |Parse(branchOutput.value).branches|
              && (forall i :: 0 <= i < |result.listing| ==> result.listing[i].number == i + 1)
              && Sorted(Names(result.listing))
              && multiset(Names(result.listing)) == multiset(Parse(branchOutput.value).branches)
    ensures result.NoMatch? <==>
              && ParseArgs(args).Success? && ParseArgs(args).value.Delete? && branchOutput.Success?
              && Filter(Parse(branchOutput.value).branches, Matches(ParseArgs(args).value.pattern)) == []
    ensures ParseArgs(args).Success? && !ParseArgs(args).value.List? && branchOutput.Success? ==>
              && (result.NoMatch? || result.Finished?)
              && (result.Finished? ==>
                    Settles(Filter(Parse(branchOutput.value).branches, Selects(ParseArgs(args).value)),
                            Parse(branchOutput.value).current, ParseArgs(args).value.force, stdin, git,
                            result.outcome, result.protectedNotice))
    ensures Attempted(result) ==
              if && ParseArgs(args).Success? && !ParseArgs(args).value.List?
                 && branchOutput.Success?
                 && Targets(ParseArgs(args).value, Parse(branchOutput.value)) != []
                 && Decision(stdin) == Some(true)
              then Commands(Targets(ParseArgs(args).value, Parse(branchOutput.value)),
                            ParseArgs(args).value.force)
              else []
  {
    var parsed := ParseArgs(args);
    if parsed.Failure? {
      return UsageError(parsed.error);
    }
    if branchOutput.Failure? {
      return ListingFailed(branchOutput.error);
    }
    var snap := ListBranches(branchOutput.value);
    result := Dispatch(parsed.value, snap, stdin, git);
  }
}
