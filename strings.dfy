/** The part of Go's `strings` package that the branch manager relies on,
    over strings modelled as sequences of Unicode code points. */
module Strings {

  /** The characters `unicode.IsSpace` accepts, and so the ones
      `strings.TrimSpace` removes: the six ASCII spaces, NEL, NBSP and the
      other Unicode White_Space characters. */
  const Whitespace: set<char> := {
    '\t', '\n', '\U{B}', '\U{C}', '\r', ' ', '\U{85}', '\U{A0}', '\U{1680}',
    '\U{2000}', '\U{2001}', '\U{2002}', '\U{2003}', '\U{2004}', '\U{2005}',
    '\U{2006}', '\U{2007}', '\U{2008}', '\U{2009}', '\U{200A}',
    '\U{2028}', '\U{2029}', '\U{202F}', '\U{205F}', '\U{3000}'
  }

  /** Every character of `s` belongs to `cut`. */
  predicate AllIn(s: string, cut: set<char>)
  {
    forall k :: 0 <= k < |s| ==> s[k] in cut
  }

  /** `s` neither begins nor ends with a character of `cut`. */
  predicate Trimmed(s: string, cut: set<char>)
  {
    s == [] || (s[0] !in cut && s[|s| - 1] !in cut)
  }

  /** `strings.TrimLeft`: drops the longest prefix made of `cut` characters. */
  function TrimLeft(s: string, cut: set<char>): (r: string)
    ensures |r| <= |s| && r == s[|s| - |r|..]
    ensures AllIn(s[..|s| - |r|], cut)
    ensures r == [] || r[0] !in cut
  {
    if |s| > 0 && s[0] in cut then
      var r := TrimLeft(s[1..], cut);
      assert s[|s| - |r|..] == s[1..][|s| - 1 - |r|..];
      assert s[..|s| - |r|] == [s[0]] + s[1..][..|s| - 1 - |r|];
      r
    else s
  }

  /** `strings.TrimRight`: drops the longest suffix made of `cut` characters. */
  function TrimRight(s: string, cut: set<char>): (r: string)
    ensures |r| <= |s| && r == s[..|r|]
    ensures AllIn(s[|r|..], cut)
    ensures r == [] || r[|r| - 1] !in cut
  {
    if |s| > 0 && s[|s| - 1] in cut then
      var r := TrimRight(s[..|s| - 1], cut);
      assert s[..|r|] == s[..|s| - 1][..|r|];
      assert s[|r|..] == s[..|s| - 1][|r|..] + [s[|s| - 1]];
      r
    else s
  }

  /** `strings.Trim(s, cutset)`: the middle of `s` once every leading and
      trailing `cut` character is gone. */
  function Trim(s: string, cut: set<char>): (r: string)
    ensures Trimmed(r, cut)
    ensures |r| <= |s|
  {
    TrimRight(TrimLeft(s, cut), cut)
  }

  /** What Trim removes is a run of `cut` characters on each side: the
      result sits inside `s`, from index `i`, between two such runs. */
  lemma TrimRemovesOnlyCut(s: string, cut: set<char>) returns (i: nat)
    ensures i + |Trim(s, cut)| <= |s| && s[i..i + |Trim(s, cut)|] == Trim(s, cut)
    ensures AllIn(s[..i], cut) && AllIn(s[i + |Trim(s, cut)|..], cut)
  {
    var left := TrimLeft(s, cut);
    var r := TrimRight(left, cut);
    i := |s| - |left|;
    assert s[i..] == left;
    assert s[i..i + |r|] == r by {
      assert s[i..i + |r|] == left[..|r|];
    }
    assert AllIn(s[i + |r|..], cut) by {
      assert s[i + |r|..] == left[|r|..];
    }
  }

  /** `strings.TrimSpace`: the result has no surrounding whitespace, and
      the string comes back unchanged exactly when it had none. */
  function TrimSpace(s: string): (r: string)
    ensures Trimmed(r, Whitespace) && |r| <= |s|
    ensures r == s <==> Trimmed(s, Whitespace)
  {
    TrimFixes(s, Whitespace);
    Trim(s, Whitespace)
  }

  lemma {:induction false} TrimLeftSkips(u: string, w: string, cut: set<char>)
    requires AllIn(u, cut) && (w == [] || w[0] !in cut)
    ensures TrimLeft(u + w, cut) == w
  {
    if u != [] {
      assert (u + w)[1..] == u[1..] + w;
      TrimLeftSkips(u[1..], w, cut);
    }
  }

  lemma {:induction false} TrimRightSkips(w: string, v: string, cut: set<char>)
    requires AllIn(v, cut) && (w == [] || w[|w| - 1] !in cut)
    ensures TrimRight(w + v, cut) == w
  {
    if v != [] {
      assert (w + v)[..|w + v| - 1] == w + v[..|v| - 1];
      TrimRightSkips(w, v[..|v| - 1], cut);
    } else {
      assert w + v == w;
    }
  }

  /** Trim is characterised independently of how it is computed: whenever `s`
      is a run of `cut` characters, a trimmed middle and another run of `cut`
      characters, Trim returns exactly that middle. */
  lemma {:induction false} TrimUnique(u: string, m: string, v: string, cut: set<char>)
    requires AllIn(u, cut) && AllIn(v, cut) && Trimmed(m, cut)
    ensures Trim(u + m + v, cut) == m
  {
    if m == [] {
      assert u + m + v == (u + v) + [];
      TrimLeftSkips(u + v, [], cut);
    } else {
      assert u + m + v == u + (m + v);
      TrimLeftSkips(u, m + v, cut);
      TrimRightSkips(m, v, cut);
    }
  }

  /** Trimming twice is trimming once. */
  lemma TrimIdempotent(s: string, cut: set<char>)
    ensures Trim(Trim(s, cut), cut) == Trim(s, cut)
  {
    var r := Trim(s, cut);
    assert [] + r + [] == r;
    TrimUnique([], r, [], cut);
  }
  /** The strings Trim leaves alone are exactly the trimmed ones. */
  lemma TrimFixes(s: string, cut: set<char>)
    ensures Trim(s, cut) == s <==> Trimmed(s, cut)
  {
    if Trimmed(s, cut) {
      assert [] + s + [] == s;
      TrimUnique([], s, [], cut);
    }
  }


  /** `strings.HasPrefix`. */
  predicate HasPrefix(s: string, prefix: string)
  {
    |prefix| <= |s| && s[..|prefix|] == prefix
  }

  /** `strings.HasSuffix`. */
  predicate HasSuffix(s: string, suffix: string)
  {
    |suffix| <= |s| && s[|s| - |suffix|..] == suffix
  }

  /** `strings.Contains`: `sub` occurs at some position of `s` (the empty
      string occurs everywhere). */
  predicate Contains(s: string, sub: string)
  {
    exists i :: 0 <= i <= |s| - |sub| && HasPrefix(s[i..], sub)
  }

  /** `strings.Split(s, sep)` for a one-character separator: the pieces of
      `s` between occurrences of `sep`; there is always at least one. */
  function Split(s: string, sep: char): (r: seq<string>)
    ensures |r| >= 1
    ensures forall k :: 0 <= k < |r| ==> sep !in r[k]
  {
    if s == [] then [[]]
    else
      var init := Split(s[..|s| - 1], sep);
      var c := s[|s| - 1];
      if c == sep then init + [[]]
      else init[..|init| - 1] + [init[|init| - 1] + [c]]
  }

  /** `strings.Join(parts, sep)`. */
  function Join(parts: seq<string>, sep: char): string
  {
    if parts == [] then []
    else if |parts| == 1 then parts[0]
    else Join(parts[..|parts| - 1], sep) + [sep] + parts[|parts| - 1]
  }

  lemma {:induction false} JoinExtendLast(parts: seq<string>, c: char, sep: char)
    requires |parts| >= 1
    ensures Join(parts[..|parts| - 1] + [parts[|parts| - 1] + [c]], sep) == Join(parts, sep) + [c]
  {
    var n := |parts|;
    var ps := parts[..n - 1] + [parts[n - 1] + [c]];
    if n > 1 {
      assert ps[..n - 1] == parts[..n - 1];
    }
  }

  /** Joining the pieces of a split gives the original string back. */
  lemma {:induction false} JoinSplit(s: string, sep: char)
    ensures Join(Split(s, sep), sep) == s
  {
    if s != [] {
      var init := s[..|s| - 1];
      JoinSplit(init, sep);
      var ps := Split(init, sep);
      var c := s[|s| - 1];
      assert s == init + [c];
      if c == sep {
        assert Split(s, sep) == ps + [[]];
        assert (ps + [[]])[..|ps|] == ps;
        assert Join(ps + [[]], sep) == Join(ps, sep) + [sep] + [];
      } else {
        assert Split(s, sep) == ps[..|ps| - 1] + [ps[|ps| - 1] + [c]];
        JoinExtendLast(ps, c, sep);
      }
    }
  }

  lemma {:induction false} SplitOfPiece(w: string, sep: char)
    requires sep !in w
    ensures Split(w, sep) == [w]
  {
    if w != [] {
      assert w[|w| - 1] in w;
      SplitOfPiece(w[..|w| - 1], sep);
      assert w[..|w| - 1] + [w[|w| - 1]] == w;
    }
  }

  lemma {:induction false} SplitAfterSeparator(a: string, w: string, sep: char)
    requires sep !in w
    ensures Split(a + [sep] + w, sep) == Split(a, sep) + [w]
  {
    if w == [] {
      assert a + [sep] + w == a + [sep];
      assert (a + [sep])[..|a|] == a;
    } else {
      var w' := w[..|w| - 1];
      assert w[|w| - 1] in w;
      assert sep !in w' by {
        forall k | 0 <= k < |w'| ensures w'[k] != sep { assert w'[k] == w[k]; }
      }
      SplitAfterSeparator(a, w', sep);
      assert (a + [sep] + w)[..|a + [sep] + w| - 1] == a + [sep] + w';
      assert w' + [w[|w| - 1]] == w;
    }
  }

  /** Splitting a join of separator-free pieces gives the pieces back. */
  lemma {:induction false} SplitJoin(parts: seq<string>, sep: char)
    requires |parts| >= 1
    requires forall k :: 0 <= k < |parts| ==> sep !in parts[k]
    ensures Split(Join(parts, sep), sep) == parts
  {
    if |parts| == 1 {
      SplitOfPiece(parts[0], sep);
    } else {
      var init := parts[..|parts| - 1];
      SplitJoin(init, sep);
      SplitAfterSeparator(Join(init, sep), parts[|parts| - 1], sep);
      assert init + [parts[|parts| - 1]] == parts;
    }
  }

  /** `strings.Split` gives one more piece than there are separators. */
  lemma {:induction false} SplitCount(s: string, sep: char)
    ensures |Split(s, sep)| == multiset(s)[sep] + 1
  {
    if s != [] {
      SplitCount(s[..|s| - 1], sep);
      assert s == s[..|s| - 1] + [s[|s| - 1]];
    }
  }

  /** Go's `<=` on strings: byte-wise lexicographic order, which for valid
      UTF-8 is the order of the code points; a prefix comes first. */
  predicate LessEq(a: string, b: string)
  {
    a == [] || (b != [] && (a[0] < b[0] || (a[0] == b[0] && LessEq(a[1..], b[1..]))))
  }

  lemma {:induction false} LessEqReflexive(a: string)
    ensures LessEq(a, a)
  {
    if a != [] {
      LessEqReflexive(a[1..]);
    }
  }

  lemma {:induction false} LessEqTotal(a: string, b: string)
    ensures LessEq(a, b) || LessEq(b, a)
  {
    if a != [] && b != [] && a[0] == b[0] {
      LessEqTotal(a[1..], b[1..]);
    }
  }

  lemma {:induction false} LessEqTransitive(a: string, b: string, c: string)
    requires LessEq(a, b) && LessEq(b, c)
    ensures LessEq(a, c)
  {
    if a != [] && a[0] == b[0] && b[0] == c[0] {
      LessEqTransitive(a[1..], b[1..], c[1..]);
    }
  }

  lemma {:induction false} LessEqAntisymmetric(a: string, b: string)
    requires LessEq(a, b) && LessEq(b, a)
    ensures a == b
  {
    if a != [] {
      LessEqAntisymmetric(a[1..], b[1..]);
      assert a == [a[0]] + a[1..] && b == [b[0]] + b[1..];
    }
  }
}
