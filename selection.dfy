/** The selection engine: which branches a `keep` or `delete` command
    targets, and the protection of the checked-out branch
    (`contains`, the selection loops of `keepBranches` and
    `deleteBranchesByPattern`, and `filterCurrentBranch`). */
module Selection {
  import opened Strings
  import opened Seqs

  /** `contains`: the Go code first copies the slice into a map used as a
      set, then looks the item up. */
  method ContainsItem(slice: seq<string>, item: string) returns (found: bool)
    ensures found <==> item in slice
  {
    var seen: set<string> := {};
    for i := 0 to |slice|
      invariant seen == Elements(slice[..i])
    {
      assert Elements(slice[..i + 1]) == Elements(slice[..i]) + {slice[i]} by {
        assert slice[..i + 1] == slice[..i] + [slice[i]];
      }
      seen := seen + {slice[i]};
    }
    assert slice[..|slice|] == slice;
    found := item in seen;
  }

  /** The rule of the keep command: a branch is a candidate for deletion when
      it is not empty and not in the keep list. */
  function KeepSelects(keep: seq<string>): string -> bool
  {
    b => b != "" && b !in keep
  }

  /** The selection loop of `keepBranches`. */
  method SelectForKeep(all: seq<string>, keep: seq<string>) returns (toDelete: seq<string>)
    ensures toDelete == Filter(all, KeepSelects(keep))
  {
    toDelete := [];
    for i := 0 to |all|
      invariant toDelete == Filter(all[..i], KeepSelects(keep))
    {
      var branch := all[i];
      assert all[..i + 1] == all[..i] + [branch];
      FilterAppend(all[..i], branch, KeepSelects(keep));
      var kept := ContainsItem(keep, branch);
      assert KeepSelects(keep)(branch) == (branch != "" && !kept);
      if branch != "" && !kept {
        toDelete := toDelete + [branch];
      }
    }
    assert all[..|all|] == all;
  }

  /** As sets, the keep command's candidates are the listed branches minus
      the keep list (and minus the empty name), and they come in listing
      order. */
  lemma KeepIsDifference(all: seq<string>, keep: seq<string>)
    ensures forall b :: b in Filter(all, KeepSelects(keep)) <==> b in all && b != "" && b !in keep
    ensures Elements(Filter(all, KeepSelects(keep))) == Elements(all) - Elements(keep) - {""}
    ensures IsSubseq(Filter(all, KeepSelects(keep)), all)
  {
    forall b ensures b in Filter(all, KeepSelects(keep)) <==> b in all && b != "" && b !in keep {
      FilterMembership(all, KeepSelects(keep), b);
    }
    FilterIsSubseq(all, KeepSelects(keep));
  }

  /** A delete pattern after reading its wildcards: the text left once
      `strings.Trim` has removed every leading and trailing `*`, and whether
      the raw pattern began and ended with `*`. */
  datatype Pattern = Pattern(bare: string, leading: bool, trailing: bool)

  const Star: set<char> := {'*'}

  /** Reading a raw pattern: its wildcard flags and its bare text. */
  function ParsePattern(raw: string): Pattern
  {
    Pattern(Trim(raw, Star), HasPrefix(raw, "*"), HasSuffix(raw, "*"))
  }

  /** A pattern is a leading (trailing) wildcard exactly when its first
      (last) character is `*`, and its bare text is the raw text with no `*`
      left at either end. */
  lemma ParsePatternReads(raw: string)
    ensures ParsePattern(raw).leading <==> raw != [] && raw[0] == '*'
    ensures ParsePattern(raw).trailing <==> raw != [] && raw[|raw| - 1] == '*'
    ensures Trimmed(ParsePattern(raw).bare, Star) && |ParsePattern(raw).bare| <= |raw|
  {
    if raw != [] {
      assert raw[..1] == [raw[0]];
      assert raw[|raw| - 1..] == [raw[|raw| - 1]];
    }
  }

  /** The `switch` of `deleteBranchesByPattern`. Every rule accepts the
      bare text itself and nothing shorter than it. */
  function MatchRule(p: Pattern, branch: string): (m: bool)
    ensures branch == p.bare ==> m
    ensures m ==> |p.bare| <= |branch|
  {
    if p.leading && p.trailing then
      assert branch[0..] == branch;
      Contains(branch, p.bare)
    else if p.leading then HasSuffix(branch, p.bare)
    else if p.trailing then HasPrefix(branch, p.bare)
    else branch == p.bare
  }

  /** The selection rule of a parsed pattern. */
  function Fits(p: Pattern): string -> bool
  {
    b => MatchRule(p, b)
  }

  /** The selection rule of a raw pattern. */
  function Matches(raw: string): string -> bool
  {
    Fits(ParsePattern(raw))
  }

  /** The glob reading of a pattern: the branch is the bare text, with
      anything in front of it only when the pattern began with `*` and
      anything after it only when it ended with `*`. */
  predicate GlobFits(p: Pattern, branch: string, i: int)
  {
    && 0 <= i <= |branch| - |p.bare|
    && branch[i..i + |p.bare|] == p.bare
    && (i == 0 || p.leading)
    && (i + |p.bare| == |branch| || p.trailing)
  }

  /** The four rules of the switch are exactly the glob reading. */
  lemma MatchRuleIsGlob(p: Pattern, branch: string)
    ensures MatchRule(p, branch) <==> exists i :: GlobFits(p, branch, i)
  {
    var n := |p.bare|;
    if MatchRule(p, branch) {
      if p.leading && p.trailing {
        var i :| 0 <= i <= |branch| - n && HasPrefix(branch[i..], p.bare);
        assert branch[i..][..n] == branch[i..i + n];
        assert GlobFits(p, branch, i);
      } else if p.leading {
        assert GlobFits(p, branch, |branch| - n);
      } else {
        assert GlobFits(p, branch, 0);
      }
    }
    if exists i :: GlobFits(p, branch, i) {
      var i :| GlobFits(p, branch, i);
      if p.leading && p.trailing {
        assert branch[i..][..n] == branch[i..i + n];
      } else if p.leading {
        assert i + n == |branch|;
      } else {
        assert i == 0;
      }
    }
  }

  /** A pattern made only of stars (`*`, `**`, ...) selects every branch,
      because Trim leaves nothing and both wildcard flags are set. */
  lemma StarsMatchEverything(raw: string, branch: string)
    requires raw != [] && AllIn(raw, Star)
    ensures Matches(raw)(branch)
  {
    assert raw == raw + [] + [];
    TrimUnique(raw, [], [], Star);
    assert raw[..1] == "*";
    assert raw[|raw| - 1..] == "*";
    assert HasPrefix(branch[0..], "");
  }

  /** The pattern text that has the given bare text and wildcards. */
  function Glob(p: Pattern): string
  {
    (if p.leading then "*" else "") + p.bare + (if p.trailing then "*" else "")
  }

  lemma GlobFlags(p: Pattern)
    requires Trimmed(p.bare, Star)
    requires p.bare == [] ==> p.leading == p.trailing
    ensures HasPrefix(Glob(p), "*") == p.leading
    ensures HasSuffix(Glob(p), "*") == p.trailing
  {
    var g := Glob(p);
    if p.bare == [] {
      assert g == if p.leading then "**" else "";
    } else {
      assert g[0] == if p.leading then '*' else p.bare[0];
      assert g[|g| - 1] == if p.trailing then '*' else p.bare[|p.bare| - 1];
    }
  }

  /** Writing a pattern out and reading it back gives the same pattern, as
      long as the bare text has no star at either end and is not empty when
      exactly one wildcard is wanted (a lone `*` reads as both wildcards). */
  lemma ParseGlob(p: Pattern)
    requires Trimmed(p.bare, Star)
    requires p.bare == [] ==> p.leading == p.trailing
    ensures ParsePattern(Glob(p)) == p
  {
    var pre: string := if p.leading then "*" else "";
    var post: string := if p.trailing then "*" else "";
    assert AllIn(pre, Star) && AllIn(post, Star);
    TrimUnique(pre, p.bare, post, Star);
    GlobFlags(p);
  }

  /** The selection loop of `deleteBranchesByPattern`. */
  method SelectByPattern(branches: seq<string>, raw: string) returns (toDelete: seq<string>)
    ensures toDelete == Filter(branches, Matches(raw))
  {
    var isPrefixWildcard := HasPrefix(raw, "*");
    var isSuffixWildcard := HasSuffix(raw, "*");
    var pattern := Trim(raw, Star);
    ghost var p := Pattern(pattern, isPrefixWildcard, isSuffixWildcard);
    assert p == ParsePattern(raw);
    toDelete := [];
    for i := 0 to |branches|
      invariant toDelete == Filter(branches[..i], Fits(p))
    {
      var branch := branches[i];
      assert branches[..i + 1] == branches[..i] + [branch];
      FilterAppend(branches[..i], branch, Fits(p));
      var matched :=
        if isPrefixWildcard && isSuffixWildcard then Contains(branch, pattern)
        else if isPrefixWildcard then HasSuffix(branch, pattern)
        else if isSuffixWildcard then HasPrefix(branch, pattern)
        else branch == pattern;
      assert matched == Fits(p)(branch);
      if matched {
        toDelete := toDelete + [branch];
      }
    }
    assert branches[..|branches|] == branches;
  }

  /** Pattern selection keeps exactly the listed branches the pattern
      matches, in listing order. */
  lemma PatternSelection(branches: seq<string>, raw: string, b: string)
    ensures b in Filter(branches, Matches(raw)) <==> b in branches && MatchRule(ParsePattern(raw), b)
    ensures IsSubseq(Filter(branches, Matches(raw)), branches)
  {
    FilterMembership(branches, Matches(raw), b);
    FilterIsSubseq(branches, Matches(raw));
  }

  function IsNotCurrent(current: string): string -> bool
  {
    b => b != current
  }

  /** Removing one name drops as many elements as it occurs. */
  lemma {:induction false} RemovedCount(s: seq<string>, current: string)
    ensures |Filter(s, IsNotCurrent(current))| == |s| - multiset(s)[current]
  {
    if s != [] {
      var init := s[..|s| - 1];
      RemovedCount(init, current);
      assert s == init + [s[|s| - 1]];
    }
  }

  /** `filterCurrentBranch`: drops every occurrence of the checked-out
      branch, keeps the rest in order, and reports whether it dropped any
      (the protection notice). */
  method FilterCurrentBranch(candidates: seq<string>, current: string)
    returns (filtered: seq<string>, removed: bool)
    ensures filtered == Filter(candidates, IsNotCurrent(current))
    ensures removed <==> current in candidates
    ensures current !in filtered
    ensures |filtered| == |candidates| - multiset(candidates)[current]
    ensures !removed ==> filtered == candidates
  {
    filtered := [];
    removed := false;
    for i := 0 to |candidates|
      invariant filtered == Filter(candidates[..i], IsNotCurrent(current))
      invariant removed <==> current in candidates[..i]
    {
      var branch := candidates[i];
      assert candidates[..i + 1] == candidates[..i] + [branch];
      FilterAppend(candidates[..i], branch, IsNotCurrent(current));
      if branch == current {
        removed := true;
      } else {
        filtered := filtered + [branch];
      }
    }
    assert candidates[..|candidates|] == candidates;
    RemovedCount(candidates, current);
    FilterMembership(candidates, IsNotCurrent(current), current);
    if !removed {
      FilterKeepsAll(candidates, IsNotCurrent(current));
    }
  }
}
