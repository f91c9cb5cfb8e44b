/** What the model yields on small concrete inputs: the pattern rules, the
    confirmation loop and the deletion batch. */
module Scenarios {
  import opened Wrappers
  import opened Strings
  import opened Seqs
  import opened Selection
  import opened Deletion

  /** Reading a pattern back from its written form. */
  lemma ReadsAs(raw: string, p: Pattern)
    requires Trimmed(p.bare, Star) && p.bare != []
    requires Glob(p) == raw
    ensures ParsePattern(raw) == p
  {
    ParseGlob(p);
  }

  /** The listing the pattern scenarios select from. */
  function Listing(): seq<string>
  {
    ["test-a", "test-b", "other"]
  }

  /** Filtering a three-name listing, one name at a time. */
  lemma FilterThree(a: string, b: string, c: string, keep: string -> bool)
    ensures Filter([a, b, c], keep)
            == (if keep(a) then [a] else []) + (if keep(b) then [b] else []) + (if keep(c) then [c] else [])
  {
    var one := if keep(a) then [a] else [];
    var two := one + (if keep(b) then [b] else []);
    assert [a][..0] == [];
    assert Filter([a], keep) == one;
    assert [a, b][..1] == [a];
    assert Filter([a, b], keep) == two;
    assert [a, b, c][..2] == [a, b];
    assert Filter([a, b, c], keep) == two + (if keep(c) then [c] else []);
  }

  /** A string whose first character differs from that of `sub` does not
      start with `sub`. */
  lemma FirstDiffers(s: string, sub: string)
    requires s != [] && sub != [] && s[0] != sub[0]
    ensures !HasPrefix(s, sub)
  {
    if |sub| <= |s| {
      assert s[..|sub|][0] == s[0];
    }
  }

  /** The rules of four patterns on the three names. */
  lemma PrefixRule()
    ensures MatchRule(Pattern("test", false, true), "test-a")
    ensures MatchRule(Pattern("test", false, true), "test-b")
    ensures !MatchRule(Pattern("test", false, true), "other")
  {
    assert "other"[0] != "test"[0];
  }

  lemma SuffixRule()
    ensures MatchRule(Pattern("-a", true, false), "test-a")
    ensures !MatchRule(Pattern("-a", true, false), "test-b")
    ensures !MatchRule(Pattern("-a", true, false), "other")
  {
    assert "test-b"[5] != "-a"[1];
    assert "other"[3] != "-a"[0];
  }

  lemma SubstringRule()
    ensures MatchRule(Pattern("est", true, true), "test-a")
    ensures MatchRule(Pattern("est", true, true), "test-b")
    ensures !MatchRule(Pattern("est", true, true), "other")
  {
    assert HasPrefix("test-a"[1..], "est");
    assert HasPrefix("test-b"[1..], "est");
    FirstDiffers("other"[0..], "est");
    FirstDiffers("other"[1..], "est");
    FirstDiffers("other"[2..], "est");
  }

  lemma ExactRule()
    ensures MatchRule(Pattern("test-a", false, false), "test-a")
    ensures !MatchRule(Pattern("test-a", false, false), "test-b")
    ensures !MatchRule(Pattern("test-a", false, false), "other")
  {
    assert "test-a"[5] != "test-b"[5];
    assert |"test-a"| != |"other"|;
  }

  /** `test*` selects by prefix: the two `test-` branches. */
  lemma PrefixScenario()
    ensures Filter(Listing(), Matches("test*")) == ["test-a", "test-b"]
  {
    var p := Pattern("test", false, true);
    ReadsAs("test*", p);
    PrefixListing();
  }

  lemma PrefixListing()
    ensures Filter(Listing(), Fits(Pattern("test", false, true))) == ["test-a", "test-b"]
  {
    PrefixRule();
    FilterThree("test-a", "test-b", "other", Fits(Pattern("test", false, true)));
  }

  /** `*-a` selects by suffix: only `test-a`. */
  lemma SuffixScenario()
    ensures Filter(Listing(), Matches("*-a")) == ["test-a"]
  {
    var p := Pattern("-a", true, false);
    ReadsAs("*-a", p);
    SuffixListing();
  }

  lemma SuffixListing()
    ensures Filter(Listing(), Fits(Pattern("-a", true, false))) == ["test-a"]
  {
    SuffixRule();
    FilterThree("test-a", "test-b", "other", Fits(Pattern("-a", true, false)));
  }

  /** `*est*` selects by substring: the two `test-` branches. */
  lemma SubstringScenario()
    ensures Filter(Listing(), Matches("*est*")) == ["test-a", "test-b"]
  {
    var p := Pattern("est", true, true);
    ReadsAs("*est*", p);
    SubstringListing();
  }

  lemma SubstringListing()
    ensures Filter(Listing(), Fits(Pattern("est", true, true))) == ["test-a", "test-b"]
  {
    SubstringRule();
    FilterThree("test-a", "test-b", "other", Fits(Pattern("est", true, true)));
  }

  /** A pattern with no star at either end is read literally. */
  lemma LiteralPattern(raw: string)
    requires raw != [] && raw[0] != '*' && raw[|raw| - 1] != '*'
    ensures ParsePattern(raw) == Pattern(raw, false, false)
  {
    var p := Pattern(raw, false, false);
    ParseGlob(p);
    assert Glob(p) == raw;
  }

  /** A pattern without stars selects only the branch of that exact name. */
  lemma ExactScenario()
    ensures Filter(Listing(), Matches("test-a")) == ["test-a"]
  {
    var p := Pattern("test-a", false, false);
    LiteralPattern("test-a");
    ExactListing();
  }

  lemma ExactListing()
    ensures Filter(Listing(), Fits(Pattern("test-a", false, false))) == ["test-a"]
  {
    ExactRule();
    FilterThree("test-a", "test-b", "other", Fits(Pattern("test-a", false, false)));
  }

  /** A lone `*` selects the whole listing. */
  lemma StarScenario()
    ensures Filter(Listing(), Matches("*")) == Listing()
  {
    forall b ensures Matches("*")(b) {
      StarsMatchEverything("*", b);
    }
    FilterKeepsAll(Listing(), Matches("*"));
  }

  /** `keep test-a` makes the other two branches candidates. */
  lemma KeepScenario()
    ensures Filter(Listing(), KeepSelects(["test-a"])) == ["test-b", "other"]
  {
    assert "test-b" != "test-a" by {
      assert "test-a"[5] != "test-b"[5];
    }
    assert "other" != "test-a" by {
      assert |"test-a"| != |"other"|;
    }
    FilterThree("test-a", "test-b", "other", KeepSelects(["test-a"]));
  }

  /** With `test-b` checked out, it is taken out of the candidates. */
  lemma ProtectionScenario()
    ensures Filter(Listing(), IsNotCurrent("test-b")) == ["test-a", "other"]
  {
    assert "test-a" != "test-b" by {
      assert "test-a"[5] != "test-b"[5];
    }
    assert "other" != "test-b" by {
      assert |"test-b"| != |"other"|;
    }
    FilterThree("test-a", "test-b", "other", IsNotCurrent("test-b"));
  }

  /** `maybe` is ignored and `no` cancels; a first `yes` confirms. */
  lemma ConfirmationScenarios()
    ensures Decision(["maybe", "no"]) == Some(false)
    ensures Decision(["yes"]) == Some(true)
    ensures Decision(["maybe", "y", "YES"]) == None
  {
    assert ["maybe", "no"][1..] == ["no"];
    assert ["maybe", "y", "YES"][1..] == ["y", "YES"];
    assert ["y", "YES"][1..] == ["YES"];
    assert ["YES"][1..] == [];
  }

  /** Git refuses to delete `b` and accepts the others. */
  function RefusesB(): Git
  {
    argv => if |argv| == 3 && argv[2] == "b" then Some("not fully merged") else None
  }

  /** Deleting `a`, `b`, `c` where only `b` fails: one failure recorded under `b`,
      and the other two counted as deleted. */
  lemma BatchScenario()
    ensures Failures(["a", "b", "c"], false, RefusesB()) == map["b" := FailureMessage("b", "not fully merged")]
    ensures Filter(["a", "b", "c"], Succeeds(RefusesB(), false)) == ["a", "c"]
  {
    var s := ["a", "b", "c"];
    assert s[..2] == ["a", "b"] && s[..2][..1] == ["a"] && s[..2][..1][..0] == [];
    assert DeleteCommand("b", false)[2] == "b";
    assert DeleteCommand("a", false)[2] != "b";
    assert DeleteCommand("c", false)[2] != "b";
  }
}
