/** Sequence vocabulary shared by the learner, the histogram and BigCLAM:
    distinctness, first-occurrence deduplication (what building a Python
    dict from a list does to its keys), ordering and sums. */
module Seqs {

  /** No element occurs twice. */
  predicate Distinct<T(==)>(s: seq<T>) {
    forall i, j :: 0 <= i < j < |s| ==> s[i] != s[j]
  }

  /** Sorted from largest to smallest, ties allowed. */
  predicate NonIncreasing(s: seq<int>) {
    forall i, j :: 0 <= i < j < |s| ==> s[i] >= s[j]
  }

  /** Sorted from largest to smallest, no ties. */
  predicate StrictlyDecreasing(s: seq<int>) {
    forall i, j :: 0 <= i < j < |s| ==> s[i] > s[j]
  }

  /** Sorted from smallest to largest, ties allowed. */
  predicate NonDecreasing(s: seq<int>) {
    forall i, j :: 0 <= i < j < |s| ==> s[i] <= s[j]
  }

  /** Sorted from smallest to largest, no ties. */
  predicate StrictlyIncreasing(s: seq<int>) {
    forall i, j :: 0 <= i < j < |s| ==> s[i] < s[j]
  }

  /** The position of the first occurrence of `x` in `s`. */
  function FirstIndex<T(==)>(s: seq<T>, x: T): (p: nat)
    requires x in s
    ensures p < |s| && s[p] == x && x !in s[..p]
  {
    if s[0] == x then 0
    else
      var p := FirstIndex(s[1..], x);
      assert s[..p + 1] == [s[0]] + s[1..][..p];
      p + 1
  }

  /** A position holding `x` with no `x` before it is the first occurrence. */
  lemma FirstIndexUnique<T>(s: seq<T>, x: T, p: nat)
    requires p < |s| && s[p] == x && x !in s[..p]
    ensures FirstIndex(s, x) == p
  {
  }

  /** Appending an element does not move the first occurrence of an earlier one. */
  lemma FirstIndexSnoc<T>(s: seq<T>, y: T, x: T)
    requires x in s
    ensures x in s + [y] && FirstIndex(s + [y], x) == FirstIndex(s, x)
  {
    var p := FirstIndex(s, x);
    assert (s + [y])[..p] == s[..p];
    FirstIndexUnique(s + [y], x, p);
  }

  /** Every element of `r` occurs in `s`, and they are listed in the order of
      their first occurrences in `s`. */
  predicate FirstOccurrenceOrder<T(==)>(r: seq<T>, s: seq<T>) {
    forall i, j :: 0 <= i < j < |r| ==> r[i] in s && r[j] in s && FirstIndex(s, r[i]) < FirstIndex(s, r[j])
  }

  /** The elements of `s` in order of first occurrence, each kept once:
      the key order of a Python dict filled from `s`. */
  function Dedup<T(==, !new)>(s: seq<T>): (r: seq<T>)
    ensures Distinct(r)
    ensures forall x {:trigger x in r, x in s} :: x in r <==> x in s
    ensures Distinct(s) ==> r == s
  {
    if |s| == 0 then []
    else
      var init, last := s[..|s| - 1], s[|s| - 1];
      assert s == init + [last];
      var d := Dedup(init);
      if last in d then d else d + [last]
  }

  /** `Dedup` lists the elements in the order of their first occurrences. */
  lemma {:induction false} DedupOrder<T(!new)>(s: seq<T>)
    ensures FirstOccurrenceOrder(Dedup(s), s)
  {
    if |s| > 0 {
      var init, last := s[..|s| - 1], s[|s| - 1];
      assert s == init + [last];
      DedupOrder(init);
      DedupSnocOrder(init, last, Dedup(init));
    }
  }

  /** The step of `Dedup`'s order: keys from `init` keep their first
      occurrences, and a new last element occurs first after all of them. */
  lemma DedupSnocOrder<T>(init: seq<T>, last: T, d: seq<T>)
    requires forall x {:trigger x in d, x in init} :: x in d <==> x in init
    requires FirstOccurrenceOrder(d, init)
    ensures FirstOccurrenceOrder(d, init + [last])
    ensures last !in d ==> FirstOccurrenceOrder(d + [last], init + [last])
  {
    var s := init + [last];
    forall i | 0 <= i < |d|
      ensures d[i] in init && d[i] in s && FirstIndex(s, d[i]) == FirstIndex(init, d[i]) < |init|
    {
      assert d[i] in d;
      FirstIndexSnoc(init, last, d[i]);
    }
    if last !in d {
      assert last !in init;
      assert s[..|init|] == init;
      FirstIndexUnique(s, last, |init|);
      var r := d + [last];
      forall i, j | 0 <= i < j < |r|
        ensures r[i] in s && r[j] in s && FirstIndex(s, r[i]) < FirstIndex(s, r[j])
      {
        if j < |d| {
          assert r[i] == d[i] && r[j] == d[j];
        } else {
          assert r[i] == d[i] && r[j] == last;
        }
      }
    }
  }

  /** The count of `x` in `s` with one more element at the end. */
  lemma CountSnoc<T>(s: seq<T>, y: T, x: T)
    ensures multiset(s + [y])[x] == multiset(s)[x] + if y == x then 1 else 0
  {
    assert multiset(s + [y]) == multiset(s) + multiset{y};
  }

  /** Deduplicating a sequence sorted downwards leaves it strictly decreasing. */
  lemma DedupOfNonIncreasing(s: seq<int>)
    requires NonIncreasing(s)
    ensures StrictlyDecreasing(Dedup(s))
    ensures |s| > 0 ==> |Dedup(s)| > 0 && Dedup(s)[|Dedup(s)| - 1] == s[|s| - 1]
  {
    var r := Dedup(s);
    DedupOrder(s);
    FirstOccurrencesDecrease(s, r);
    if |s| > 0 {
      assert s[|s| - 1] in r;
      FirstOccurrencesEnd(s, r);
    }
  }

  /** Distinct values listed in the order of their first occurrences in a
      sequence sorted downwards are strictly decreasing. */
  lemma FirstOccurrencesDecrease(s: seq<int>, r: seq<int>)
    requires NonIncreasing(s) && Distinct(r) && FirstOccurrenceOrder(r, s)
    ensures StrictlyDecreasing(r)
  {
    forall i, j | 0 <= i < j < |r|
      ensures r[i] > r[j]
    {
      assert r[i] in s && r[j] in s && FirstIndex(s, r[i]) < FirstIndex(s, r[j]);
      var p, q := FirstIndex(s, r[i]), FirstIndex(s, r[j]);
      assert s[p] >= s[q];
    }
  }

  /** Values listed in the order of their first occurrences in a sequence
      sorted downwards end with its last element, when that one is listed. */
  lemma FirstOccurrencesEnd(s: seq<int>, r: seq<int>)
    requires NonIncreasing(s) && FirstOccurrenceOrder(r, s)
    requires |s| > 0 && s[|s| - 1] in r
    ensures |r| > 0 && r[|r| - 1] == s[|s| - 1]
  {
    var k :| 0 <= k < |r| && r[k] == s[|s| - 1];
    assert r[|r| - 1] in s;
    LastFirstOccurrence(s, r[|r| - 1]);
  }

  /** In a sequence sorted downwards, no value first occurs after the last element does. */
  lemma LastFirstOccurrence(s: seq<int>, y: int)
    requires NonIncreasing(s) && y in s
    ensures FirstIndex(s, y) <= FirstIndex(s, s[|s| - 1])
  {
    var p := FirstIndex(s, s[|s| - 1]);
    // from the first occurrence of the smallest value on, every entry is that value
    forall j | p < j < |s|
      ensures s[j] == s[|s| - 1]
    {
      assert s[p] >= s[j];
    }
  }

  /** One more element: kept at the end exactly when it is new. */
  lemma DedupSnoc<T(!new)>(s: seq<T>, x: T)
    ensures Dedup(s + [x]) == if x in Dedup(s) then Dedup(s) else Dedup(s) + [x]
  {
    var t := s + [x];
    assert t[..|t| - 1] == s;
  }

  /** Deduplicating a prefix first changes nothing. */
  lemma {:induction false} DedupAppend<T(!new)>(x: seq<T>, y: seq<T>)
    ensures Dedup(Dedup(x) + y) == Dedup(x + y)
  {
    if |y| == 0 {
      assert Dedup(x) + y == Dedup(x) && x + y == x;
    } else {
      var init, last := y[..|y| - 1], y[|y| - 1];
      var d1, d2 := Dedup(Dedup(x) + init), Dedup(x + init);
      assert Dedup(Dedup(x) + y) == if last in d1 then d1 else d1 + [last] by {
        AppendSplitLast(Dedup(x), y);
        DedupSnoc(Dedup(x) + init, last);
      }
      assert Dedup(x + y) == if last in d2 then d2 else d2 + [last] by {
        AppendSplitLast(x, y);
        DedupSnoc(x + init, last);
      }
      DedupAppend(x, init);
    }
  }

  /** Appending `y` is appending all of `y` but its last element, then that element. */
  lemma AppendSplitLast<T>(x: seq<T>, y: seq<T>)
    requires |y| > 0
    ensures x + y == (x + y[..|y| - 1]) + [y[|y| - 1]]
  {
    assert y == y[..|y| - 1] + [y[|y| - 1]];
  }

  /** Sum of a sequence of integers, Python's `sum(...)`. */
  function Sum(s: seq<int>): int {
    if |s| == 0 then 0 else Sum(s[..|s| - 1]) + s[|s| - 1]
  }

  /** Replacing one entry changes the sum by exactly the difference. */
  lemma {:induction false} SumUpdate(s: seq<int>, j: int, v: int)
    requires 0 <= j < |s|
    ensures Sum(s[j := v]) == Sum(s) - s[j] + v
  {
    var t := s[j := v];
    if j < |s| - 1 {
      assert t[..|t| - 1] == s[..|s| - 1][j := v];
      SumUpdate(s[..|s| - 1], j, v);
    } else {
      assert t[..|t| - 1] == s[..|s| - 1];
    }
  }

  /** A sum of non-negative entries is non-negative, and is zero exactly when every entry is. */
  lemma {:induction false} SumNonNegative(s: seq<int>)
    requires forall i :: 0 <= i < |s| ==> s[i] >= 0
    ensures Sum(s) >= 0
    ensures Sum(s) == 0 <==> forall i :: 0 <= i < |s| ==> s[i] == 0
  {
    if |s| > 0 {
      var init := s[..|s| - 1];
      SumNonNegative(init);
      if Sum(s) == 0 {
        forall i | 0 <= i < |s|
          ensures s[i] == 0
        {
          if i < |s| - 1 {
            assert s[i] == init[i];
          }
        }
      }
    }
  }

  /** Sum of a sequence of reals. */
  function SumReal(s: seq<real>): real {
    if |s| == 0 then 0.0 else SumReal(s[..|s| - 1]) + s[|s| - 1]
  }

  /** A sequence of zeros sums to zero. */
  lemma {:induction false} SumRealZero(s: seq<real>)
    requires forall i :: 0 <= i < |s| ==> s[i] == 0.0
    ensures SumReal(s) == 0.0
  {
    if |s| > 0 {
      SumRealZero(s[..|s| - 1]);
    }
  }

  /** Replacing one entry changes the real sum by exactly the difference. */
  lemma {:induction false} SumRealUpdate(s: seq<real>, j: int, v: real)
    requires 0 <= j < |s|
    ensures SumReal(s[j := v]) == SumReal(s) - s[j] + v
  {
    var t := s[j := v];
    if j < |s| - 1 {
      assert t[..|t| - 1] == s[..|s| - 1][j := v];
      SumRealUpdate(s[..|s| - 1], j, v);
    } else {
      assert t[..|t| - 1] == s[..|s| - 1];
    }
  }

  /** A distinct sequence holds each value at most once. */
  lemma {:induction false} DistinctCountsAtMostOne<T>(s: seq<T>, x: T)
    requires Distinct(s)
    ensures multiset(s)[x] <= 1
  {
    if |s| > 0 {
      var init, last := s[..|s| - 1], s[|s| - 1];
      assert s == init + [last];
      DistinctCountsAtMostOne(init, x);
      if x == last {
        assert x !in init;
      }
    }
  }

  /** A sequence sorted upwards whose values each occur at most once is strictly increasing. */
  lemma NonDecreasingSingletons(s: seq<int>)
    requires NonDecreasing(s)
    requires forall x :: multiset(s)[x] <= 1
    ensures StrictlyIncreasing(s)
  {
    forall i, j | 0 <= i < j < |s|
      ensures s[i] < s[j]
    {
      assert s == s[..i] + [s[i]] + s[i + 1..j] + [s[j]] + s[j + 1..];
      assert multiset(s) == multiset(s[..i]) + multiset{s[i]} + multiset(s[i + 1..j]) + multiset{s[j]} + multiset(s[j + 1..]);
      var x := s[i];
      assert multiset(s)[x] >= multiset{s[i]}[x] + multiset{s[j]}[x];
    }
  }

  /** A strictly increasing sequence has no repeated element. */
  lemma StrictlyIncreasingIsDistinct(s: seq<int>)
    requires StrictlyIncreasing(s)
    ensures Distinct(s)
  {
  }
}
