/** Ordered filtering over sequences: the shape of every Go loop in the
    branch manager that walks a slice and appends the elements it keeps. */
module Seqs {

  /** The elements of `s` that satisfy `keep`, in their order in `s`. */
  function Filter<T>(s: seq<T>, keep: T -> bool): (r: seq<T>)
    ensures |r| <= |s|
    ensures forall x :: x in r ==> x in s && keep(x)
  {
    if s == [] then []
    else
      var init := Filter(s[..|s| - 1], keep);
      if keep(s[|s| - 1]) then init + [s[|s| - 1]] else init
  }

  /** Filtering a sequence extended by one element extends the filtered
      sequence by that element when it is kept, and leaves it alone
      otherwise: this is what one round of an appending loop does. */
  lemma FilterAppend<T>(s: seq<T>, x: T, keep: T -> bool)
    ensures Filter(s + [x], keep) == Filter(s, keep) + (if keep(x) then [x] else [])
  {
    assert (s + [x])[..|s|] == s;
  }

  /** Each value occurs in the filtered sequence exactly as often as in the
      original when it is kept, and not at all otherwise. */
  lemma {:induction false} FilterMultiplicity<T>(s: seq<T>, keep: T -> bool, x: T)
    ensures multiset(Filter(s, keep))[x] == if keep(x) then multiset(s)[x] else 0
  {
    if s != [] {
      var init := s[..|s| - 1];
      FilterMultiplicity(init, keep, x);
      assert s == init + [s[|s| - 1]];
    }
  }

  /** Membership in the filtered sequence, both directions. */
  lemma FilterMembership<T>(s: seq<T>, keep: T -> bool, x: T)
    ensures x in Filter(s, keep) <==> x in s && keep(x)
  {
    FilterMultiplicity(s, keep, x);
    assert x in Filter(s, keep) <==> x in multiset(Filter(s, keep));
    assert x in s <==> x in multiset(s);
  }

  /** Filtering keeps everything when every element is kept. */
  lemma {:induction false} FilterKeepsAll<T>(s: seq<T>, keep: T -> bool)
    requires forall k :: 0 <= k < |s| ==> keep(s[k])
    ensures Filter(s, keep) == s
  {
    if s != [] {
      FilterKeepsAll(s[..|s| - 1], keep);
      assert s[..|s| - 1] + [s[|s| - 1]] == s;
    }
  }

  /** `a` can be obtained from `b` by deleting elements (matched greedily
      from the end, which finds an embedding whenever one exists). */
  predicate IsSubseq<T(==)>(a: seq<T>, b: seq<T>)
    decreases |b|
  {
    if a == [] then true
    else if b == [] then false
    else if a[|a| - 1] == b[|b| - 1] then IsSubseq(a[..|a| - 1], b[..|b| - 1])
    else IsSubseq(a, b[..|b| - 1])
  }

  /** Filtering preserves the relative order of the elements it keeps. */
  lemma {:induction false} FilterIsSubseq<T>(s: seq<T>, keep: T -> bool)
    ensures IsSubseq(Filter(s, keep), s)
  {
    if s != [] {
      var init := s[..|s| - 1];
      FilterIsSubseq(init, keep);
      var r := Filter(s, keep);
      if keep(s[|s| - 1]) {
        assert r[..|r| - 1] == Filter(init, keep);
      } else if r != [] {
        assert r[|r| - 1] in r;
      }
    }
  }

  /** `f` of the last element of `s` that satisfies `p`, or `none` when no
      element does: what a loop computes that overwrites a variable each
      time it meets such an element. */
  function LastMatch<T, U>(s: seq<T>, p: T -> bool, f: T -> U, none: U): U
  {
    if s == [] then none
    else if p(s[|s| - 1]) then f(s[|s| - 1])
    else LastMatch(s[..|s| - 1], p, f, none)
  }

  lemma LastMatchAppend<T, U>(s: seq<T>, x: T, p: T -> bool, f: T -> U, none: U)
    ensures LastMatch(s + [x], p, f, none) == if p(x) then f(x) else LastMatch(s, p, f, none)
  {
    assert (s + [x])[..|s|] == s;
  }

  /** With no matching element the result is `none`. */
  lemma {:induction false} LastMatchNone<T, U>(s: seq<T>, p: T -> bool, f: T -> U, none: U)
    requires forall k :: 0 <= k < |s| ==> !p(s[k])
    ensures LastMatch(s, p, f, none) == none
  {
    if s != [] {
      LastMatchNone(s[..|s| - 1], p, f, none);
    }
  }

  /** The result is `f` of the matching element that no other matching
      element follows. */
  lemma {:induction false} LastMatchAt<T, U>(s: seq<T>, p: T -> bool, f: T -> U, none: U, k: nat)
    requires k < |s| && p(s[k])
    requires forall j :: k < j < |s| ==> !p(s[j])
    ensures LastMatch(s, p, f, none) == f(s[k])
  {
    if k < |s| - 1 {
      LastMatchAt(s[..|s| - 1], p, f, none, k);
    }
  }

  /** A result other than `none` is `f` of some element. */
  lemma {:induction false} LastMatchFrom<T, U>(s: seq<T>, p: T -> bool, f: T -> U, none: U)
    ensures LastMatch(s, p, f, none) == none
            || exists k :: 0 <= k < |s| && p(s[k]) && LastMatch(s, p, f, none) == f(s[k])
  {
    if s != [] && !p(s[|s| - 1]) {
      LastMatchFrom(s[..|s| - 1], p, f, none);
    }
  }

  /** No value occurs twice. */
  predicate Distinct<T(==)>(s: seq<T>)
  {
    forall i, j :: 0 <= i < j < |s| ==> s[i] != s[j]
  }

  /** The set of the elements of `s`. */
  function Elements<T>(s: seq<T>): set<T>
  {
    set x | x in s
  }

  /** A sequence has at least as many positions as distinct values, and
      exactly as many when no value repeats. */
  lemma {:induction false} ElementsCard<T>(s: seq<T>)
    ensures |Elements(s)| <= |s|
    ensures Distinct(s) ==> |Elements(s)| == |s|
  {
    if s != [] {
      var init := s[..|s| - 1];
      var last := s[|s| - 1];
      ElementsCard(init);
      assert Elements(s) == Elements(init) + {last};
      if Distinct(s) {
        assert Distinct(init);
        assert forall k :: 0 <= k < |init| ==> init[k] == s[k] != last;
        assert last !in Elements(init);
      }
    }
  }

  /** Filtering a sequence without repeats gives one without repeats. */
  lemma {:induction false} FilterDistinct<T>(s: seq<T>, keep: T -> bool)
    requires Distinct(s)
    ensures Distinct(Filter(s, keep))
  {
    if s != [] {
      var init := s[..|s| - 1];
      var last := s[|s| - 1];
      assert Distinct(init);
      FilterDistinct(init, keep);
      if keep(last) {
        assert forall k :: 0 <= k < |init| ==> init[k] == s[k] != last;
        assert last !in init;
      }
    }
  }
}
