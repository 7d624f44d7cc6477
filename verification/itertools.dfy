/** Python's `itertools.combinations(s, k)`: every choice of `k` positions of
    `s`, in increasing position order, listed lexicographically by position. */
module Itertools {
  import opened Seqs

  /** `c` can be obtained from `s` by deleting elements (order kept). */
  predicate Subsequence<T(==)>(c: seq<T>, s: seq<T>)
    decreases |s|
  {
    if |c| == 0 then true
    else if |s| == 0 then false
    else (c[0] == s[0] && Subsequence(c[1..], s[1..])) || Subsequence(c, s[1..])
  }

  /** Pascal's rule: the number of `k`-element subsets of an `n`-element set. */
  function Binomial(n: nat, k: nat): nat {
    if k == 0 then 1
    else if n == 0 then 0
    else Binomial(n - 1, k - 1) + Binomial(n - 1, k)
  }

  /** `x` put in front of every sequence of `cs`. */
  function PrependAll<T>(x: T, cs: seq<seq<T>>): (r: seq<seq<T>>)
    ensures |r| == |cs|
    ensures forall i :: 0 <= i < |cs| ==> r[i] == [x] + cs[i]
  {
    seq(|cs|, i requires 0 <= i < |cs| => [x] + cs[i])
  }

  /** The combinations starting with `s[0]` come first, then those without it,
      which is the order `itertools.combinations` yields them in. */
  function Combinations<T>(s: seq<T>, k: nat): (r: seq<seq<T>>)
    ensures |r| == Binomial(|s|, k)
    ensures forall i :: 0 <= i < |r| ==> |r[i]| == k
    decreases |s|
  {
    if k == 0 then [[]]
    else if |s| == 0 then []
    else PrependAll(s[0], Combinations(s[1..], k - 1)) + Combinations(s[1..], k)
  }

  /** Every element of a subsequence occurs in the sequence. */
  lemma {:induction false} SubsequenceMembers<T>(c: seq<T>, s: seq<T>)
    requires Subsequence(c, s)
    ensures forall i :: 0 <= i < |c| ==> c[i] in s
    decreases |s|
  {
    if |c| > 0 {
      if c[0] == s[0] && Subsequence(c[1..], s[1..]) {
        SubsequenceMembers(c[1..], s[1..]);
        forall i | 0 <= i < |c|
          ensures c[i] in s
        {
          if i > 0 {
            assert c[i] == c[1..][i - 1];
          }
        }
      } else {
        SubsequenceMembers(c, s[1..]);
      }
    }
  }

  /** Every listed combination is a `k`-element subsequence. */
  lemma {:induction false} CombinationIsSubsequence<T>(s: seq<T>, k: nat, c: seq<T>)
    requires c in Combinations(s, k)
    ensures |c| == k && Subsequence(c, s)
    decreases |s|
  {
    if k > 0 && |s| > 0 {
      var with, without := Combinations(s[1..], k - 1), Combinations(s[1..], k);
      var front := PrependAll(s[0], with);
      assert Combinations(s, k) == front + without;
      if c in front {
        var i :| 0 <= i < |front| && front[i] == c;
        CombinationIsSubsequence(s[1..], k - 1, with[i]);
        assert c[0] == s[0] && c[1..] == with[i];
      } else {
        assert c in without;
        CombinationIsSubsequence(s[1..], k, c);
      }
    }
  }

  /** Every `k`-element subsequence is listed. */
  lemma {:induction false} SubsequenceIsCombination<T>(s: seq<T>, k: nat, c: seq<T>)
    requires |c| == k && Subsequence(c, s)
    ensures c in Combinations(s, k)
    decreases |s|
  {
    if k > 0 {
      var with, without := Combinations(s[1..], k - 1), Combinations(s[1..], k);
      var front := PrependAll(s[0], with);
      assert Combinations(s, k) == front + without;
      if c[0] == s[0] && Subsequence(c[1..], s[1..]) {
        SubsequenceIsCombination(s[1..], k - 1, c[1..]);
        var i :| 0 <= i < |with| && with[i] == c[1..];
        assert front[i] == c;
      } else {
        SubsequenceIsCombination(s[1..], k, c);
      }
    }
  }

  /** The arm space is exactly the `k`-element subsequences of `s`. */
  lemma CombinationsAreSubsequences<T>(s: seq<T>, k: nat, c: seq<T>)
    ensures c in Combinations(s, k) <==> |c| == k && Subsequence(c, s)
  {
    if c in Combinations(s, k) {
      CombinationIsSubsequence(s, k, c);
    }
    if |c| == k && Subsequence(c, s) {
      SubsequenceIsCombination(s, k, c);
    }
  }

  /** A subsequence of a sequence without repeats has no repeats. */
  lemma {:induction false} SubsequenceOfDistinct<T>(c: seq<T>, s: seq<T>)
    requires Distinct(s) && Subsequence(c, s)
    ensures Distinct(c)
    decreases |s|
  {
    if |c| > 0 {
      assert Distinct(s[1..]);
      if c[0] == s[0] && Subsequence(c[1..], s[1..]) {
        SubsequenceOfDistinct(c[1..], s[1..]);
        SubsequenceMembers(c[1..], s[1..]);
        assert s[0] !in s[1..];
        forall i | 0 < i < |c|
          ensures c[i] != c[0]
        {
          assert c[i] == c[1..][i - 1];
        }
        assert c == [c[0]] + c[1..];
      } else {
        SubsequenceOfDistinct(c, s[1..]);
      }
    }
  }

  /** Over distinct nodes, no combination is listed twice. */
  lemma {:induction false} CombinationsListedOnce<T>(s: seq<T>, k: nat)
    requires Distinct(s)
    ensures Distinct(Combinations(s, k))
    decreases |s|
  {
    if k > 0 && |s| > 0 {
      var with, without := Combinations(s[1..], k - 1), Combinations(s[1..], k);
      var front := PrependAll(s[0], with);
      var r := Combinations(s, k);
      assert r == front + without;
      assert Distinct(s[1..]) && s[0] !in s[1..];
      CombinationsListedOnce(s[1..], k - 1);
      CombinationsListedOnce(s[1..], k);
      forall i | 0 <= i < |without|
        ensures s[0] !in without[i]
      {
        CombinationIsSubsequence(s[1..], k, without[i]);
        SubsequenceMembers(without[i], s[1..]);
      }
      forall i, j | 0 <= i < j < |r|
        ensures r[i] != r[j]
      {
        if j < |front| {
          assert r[i][1..] == with[i] && r[j][1..] == with[j];
        } else if i < |front| {
          assert r[i][0] == s[0];
          assert r[j] == without[j - |front|];
        } else {
          assert r[i] == without[i - |front|] && r[j] == without[j - |front|];
        }
      }
    }
  }

  /** Over distinct nodes, every combination has distinct nodes and no
      combination is listed twice. */
  lemma CombinationsOfDistinct<T>(s: seq<T>, k: nat)
    requires Distinct(s)
    ensures Distinct(Combinations(s, k))
    ensures forall i :: 0 <= i < |Combinations(s, k)| ==> Distinct(Combinations(s, k)[i])
  {
    CombinationsListedOnce(s, k);
    forall i | 0 <= i < |Combinations(s, k)|
      ensures Distinct(Combinations(s, k)[i])
    {
      CombinationIsSubsequence(s, k, Combinations(s, k)[i]);
      SubsequenceOfDistinct(Combinations(s, k)[i], s);
    }
  }
}
