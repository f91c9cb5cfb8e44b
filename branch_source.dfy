/** The branch source: turning the text printed by `git branch` into the
    list of branch names and the name of the checked-out branch
    (`listBranches` in git_branch_manager.go, without the process call). */
module BranchSource {
  import opened Strings
  import opened Seqs

  /** The branches in the order git printed them, and the checked-out branch
      (empty when no line carries the marker). */
  datatype Snapshot = Snapshot(branches: seq<string>, current: string)

  /** A line as the parsing loop leaves it: trimmed and, when it then starts
      with the current-branch marker `*`, without that one character and
      trimmed again. */
  function CleanLine(line: string): (r: string)
    ensures Trimmed(r, Whitespace)
    ensures |r| <= |line|
  {
    var t := TrimSpace(line);
    if HasPrefix(t, "*") then TrimSpace(t[1..]) else t
  }

  /** The line carries the current-branch marker once trimmed. */
  predicate MarksCurrent(line: string)
  {
    HasPrefix(TrimSpace(line), "*")
  }

  predicate NonEmpty(s: string)
  {
    s != []
  }

  function CleanAll(lines: seq<string>): (r: seq<string>)
    ensures |r| == |lines|
  {
    seq(|lines|, i requires 0 <= i < |lines| => CleanLine(lines[i]))
  }

  /** The branch names: the cleaned lines that are not empty, in order. */
  function Entries(lines: seq<string>): seq<string>
  {
    Filter(CleanAll(lines), NonEmpty)
  }

  /** The cleaned text of the last marked line, or "" when no line is marked
      (each marked line overwrites the one before, as in the loop). */
  function CurrentOf(lines: seq<string>): string
  {
    LastMatch(lines, MarksCurrent, CleanLine, "")
  }

  /** The snapshot the parse produces from the whole output. */
  function Parse(output: string): (snap: Snapshot)
    ensures forall x :: x in snap.branches ==> x != [] && Trimmed(x, Whitespace)
    ensures snap.current != [] ==> snap.current in snap.branches
    ensures Trimmed(snap.current, Whitespace)
    ensures |snap.branches| <= |Split(output, '\n')|
  {
    var lines := Split(output, '\n');
    EntriesWellFormed(lines);
    CurrentIsListed(lines);
    Snapshot(Entries(lines), CurrentOf(lines))
  }

  lemma CleanAllAppend(lines: seq<string>, line: string)
    ensures CleanAll(lines + [line]) == CleanAll(lines) + [CleanLine(line)]
  {
    var l, r := CleanAll(lines + [line]), CleanAll(lines) + [CleanLine(line)];
    forall k | 0 <= k < |l|
      ensures l[k] == r[k]
    {
      if k < |lines| {
        assert (lines + [line])[k] == lines[k];
      }
    }
  }

  lemma EntriesAppend(lines: seq<string>, line: string)
    ensures Entries(lines + [line])
            == Entries(lines) + (if CleanLine(line) != [] then [CleanLine(line)] else [])
  {
    CleanAllAppend(lines, line);
    FilterAppend(CleanAll(lines), CleanLine(line), NonEmpty);
  }

  /** No entry is empty and none has whitespace around it; there are at most
      as many entries as lines. */
  lemma EntriesWellFormed(lines: seq<string>)
    ensures forall x :: x in Entries(lines) ==> x != [] && Trimmed(x, Whitespace)
    ensures |Entries(lines)| <= |lines|
  {
    forall x | x in Entries(lines)
      ensures x != [] && Trimmed(x, Whitespace)
    {
      assert x in CleanAll(lines);
      var k :| 0 <= k < |lines| && CleanAll(lines)[k] == x;
    }
  }

  /** The current branch is "" when no line is marked, and otherwise the
      cleaned text of the last marked line. */
  lemma CurrentOfIsLastMarked(lines: seq<string>, k: nat)
    ensures (forall j :: 0 <= j < |lines| ==> !MarksCurrent(lines[j])) ==> CurrentOf(lines) == ""
    ensures k < |lines| && MarksCurrent(lines[k]) && (forall j :: k < j < |lines| ==> !MarksCurrent(lines[j]))
            ==> CurrentOf(lines) == CleanLine(lines[k])
  {
    if forall j :: 0 <= j < |lines| ==> !MarksCurrent(lines[j]) {
      LastMatchNone(lines, MarksCurrent, CleanLine, "");
    }
    if k < |lines| && MarksCurrent(lines[k]) && (forall j :: k < j < |lines| ==> !MarksCurrent(lines[j])) {
      LastMatchAt(lines, MarksCurrent, CleanLine, "", k);
    }
  }

  /** A non-empty current branch is one of the entries, and it never has
      whitespace around it. */
  lemma CurrentIsListed(lines: seq<string>)
    ensures CurrentOf(lines) != [] ==> CurrentOf(lines) in Entries(lines)
    ensures Trimmed(CurrentOf(lines), Whitespace)
  {
    LastMatchFrom(lines, MarksCurrent, CleanLine, "");
    var c := CurrentOf(lines);
    if c != [] {
      var k :| 0 <= k < |lines| && MarksCurrent(lines[k]) && c == CleanLine(lines[k]);
      assert CleanAll(lines)[k] == c;
      FilterMembership(CleanAll(lines), NonEmpty, c);
    }
  }

  /** The parsing loop of `listBranches`: split the output on newlines, clean
      each line, remember the last marked one as the current branch and keep
      the non-empty ones. */
  method ListBranches(output: string) returns (snap: Snapshot)
    ensures snap == Parse(output)
    ensures forall x :: x in snap.branches ==> x != [] && Trimmed(x, Whitespace)
    ensures snap.current != [] ==> snap.current in snap.branches
    ensures Trimmed(snap.current, Whitespace)
    ensures |snap.branches| <= |Split(output, '\n')|
  {
    var lines := Split(output, '\n');
    var branches: seq<string> := [];
    var current := "";
    var i := 0;
    while i < |lines|
      invariant 0 <= i <= |lines|
      invariant branches == Entries(lines[..i])
      invariant current == CurrentOf(lines[..i])
    {
      ghost var next := lines[..i + 1];
      assert next == lines[..i] + [lines[i]];
      EntriesAppend(lines[..i], lines[i]);
      LastMatchAppend(lines[..i], lines[i], MarksCurrent, CleanLine, "");
      ghost var cleaned := CleanLine(lines[i]);
      assert Entries(next) == branches + (if cleaned != [] then [cleaned] else []);
      var branch := TrimSpace(lines[i]);
      var marked := HasPrefix(branch, "*");
      assert marked == MarksCurrent(lines[i]);
      if marked {
        branch := TrimSpace(branch[1..]);
        current := branch;
      }
      assert branch == cleaned;
      if branch != "" {
        branches := branches + [branch];
      }
      assert branches == Entries(next);
      i := i + 1;
    }
    assert lines[..i] == lines;
    snap := Snapshot(branches, current);
  }
}
