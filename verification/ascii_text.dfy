/** Case-insensitive substring search, the model of `String.IndexOf` and
    `String.Contains` called with `StringComparison.OrdinalIgnoreCase`.
    Case folding is restricted to the ASCII letters. */
module AsciiText {

  /** Folds the ASCII upper-case letters onto lower case; every other
      character is left alone. */
  function FoldChar(c: char): char
  {
    if 'A' <= c <= 'Z' then (c as int - 'A' as int + 'a' as int) as char else c
  }

  /** `a` and `b` have the same length and agree once case is folded. */
  predicate EqualCI(a: string, b: string)
  {
    |a| == |b| && forall i :: 0 <= i < |a| ==> FoldChar(a[i]) == FoldChar(b[i])
  }

  /** `pat` occurs in `s` starting at index `i`, ignoring case. */
  predicate MatchesAt(s: string, pat: string, i: nat)
  {
    i + |pat| <= |s| && EqualCI(s[i..i + |pat|], pat)
  }

  /** The first index at or after `from` where `pat` occurs in `s`, or -1. */
  function IndexOfFrom(s: string, pat: string, from: nat): (r: int)
    ensures r == -1 || (from <= r <= |s| && MatchesAt(s, pat, r))
    ensures r == -1 <==> forall k :: from <= k <= |s| ==> !MatchesAt(s, pat, k)
    ensures r >= 0 ==> forall k :: from <= k < r ==> !MatchesAt(s, pat, k)
    decreases |s| + 1 - from
  {
    if from + |pat| > |s| then -1
    else if MatchesAt(s, pat, from) then from
    else IndexOfFrom(s, pat, from + 1)
  }

  /** Index of the first case-insensitive occurrence of `pat` in `s`, or -1
      when there is none, as `String.IndexOf` returns it. */
  function IndexOfCI(s: string, pat: string): (r: int)
    ensures -1 <= r <= |s|
    ensures r >= 0 ==> MatchesAt(s, pat, r) && forall k :: 0 <= k < r ==> !MatchesAt(s, pat, k)
    ensures r == -1 <==> forall k :: 0 <= k <= |s| ==> !MatchesAt(s, pat, k)
  {
    IndexOfFrom(s, pat, 0)
  }

  /** `String.Contains` with case ignored: some occurrence of `pat` exists. */
  predicate ContainsCI(s: string, pat: string)
  {
    IndexOfCI(s, pat) >= 0
  }

  /** ContainsCI holds exactly when `pat` occurs somewhere in `s`. */
  lemma ContainsCIMeansOccurs(s: string, pat: string)
    ensures ContainsCI(s, pat) <==> exists k :: 0 <= k <= |s| && MatchesAt(s, pat, k)
  {
    if ContainsCI(s, pat) {
      var r := IndexOfCI(s, pat);
      assert 0 <= r <= |s| && MatchesAt(s, pat, r);
    }
  }

  /** The first occurrence is what `IndexOfCI` returns. */
  lemma IndexOfCIFindsFirst(s: string, pat: string, p: nat)
    requires MatchesAt(s, pat, p)
    requires forall k :: 0 <= k < p ==> !MatchesAt(s, pat, k)
    ensures IndexOfCI(s, pat) == p
  {
    var r := IndexOfCI(s, pat);
    assert p <= |s|;
    assert r != -1;
  }

  /** An occurrence inside `t` remains an occurrence once `t` is embedded
      between `pre` and `post`, shifted by `|pre|`. */
  lemma MatchInContext(pre: string, t: string, post: string, pat: string, j: nat)
    requires MatchesAt(t, pat, j)
    ensures MatchesAt(pre + t + post, pat, |pre| + j)
  {
    var w := pre + t + post;
    assert w[|pre| + j..|pre| + j + |pat|] == t[j..j + |pat|];
  }

  /** Strings that agree up to case have the same occurrences of any pattern. */
  lemma MatchesAtIgnoresCase(s1: string, s2: string, pat: string, k: nat)
    requires EqualCI(s1, s2)
    ensures MatchesAt(s1, pat, k) <==> MatchesAt(s2, pat, k)
  {
    if k + |pat| <= |s1| {
      var a, b := s1[k..k + |pat|], s2[k..k + |pat|];
      assert forall i :: 0 <= i < |a| ==> FoldChar(a[i]) == FoldChar(b[i]) by {
        forall i | 0 <= i < |a|
          ensures FoldChar(a[i]) == FoldChar(b[i])
        {
          assert a[i] == s1[k + i] && b[i] == s2[k + i];
        }
      }
    }
  }

  /** Strings that agree up to case contain the same patterns. */
  lemma ContainsCIIgnoresCase(s1: string, s2: string, pat: string)
    requires EqualCI(s1, s2)
    ensures ContainsCI(s1, pat) <==> ContainsCI(s2, pat)
  {
    ContainsCIMeansOccurs(s1, pat);
    ContainsCIMeansOccurs(s2, pat);
    forall k: nat | k <= |s1|
      ensures MatchesAt(s1, pat, k) <==> MatchesAt(s2, pat, k)
    {
      MatchesAtIgnoresCase(s1, s2, pat, k);
    }
  }
}
