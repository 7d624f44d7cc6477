/** `Analyzer.get_degree_distribution` of analyze.py, up to the point where
    the plot is drawn: the degree sequence sorted from largest to smallest,
    the frequency dictionary filled from it, and the aligned `degrees` /
    `frequencies` lists read off the dictionary. */
module DegreeHistogram {
  import opened Seqs

  /** What the analyser reads from the network: whether it is directed, and
      the degree and the in-degree of every node, in node order. */
  datatype Network = Network(directed: bool, degree: seq<nat>, inDegree: seq<nat>)

  /** In-degrees for a directed network, degrees otherwise. */
  function NodeDegrees(g: Network): seq<int> {
    if g.directed then g.inDegree else g.degree
  }

  /** `x` placed into a sequence sorted from largest to smallest. */
  function Insert(x: int, s: seq<int>): (r: seq<int>)
    requires NonIncreasing(s)
    ensures NonIncreasing(r)
    ensures multiset(r) == multiset(s) + multiset{x}
    ensures |r| == |s| + 1
    ensures r[0] == x || (|s| > 0 && r[0] == s[0])
  {
    if |s| == 0 then [x]
    else if x >= s[0] then [x] + s
    else
      var rest := Insert(x, s[1..]);
      assert s == [s[0]] + s[1..];
      [s[0]] + rest
  }

  /** `sorted(s, reverse=True)`. */
  function SortDescending(s: seq<int>): (r: seq<int>)
    ensures NonIncreasing(r)
    ensures multiset(r) == multiset(s)
    ensures |r| == |s|
  {
    if |s| == 0 then []
    else
      assert s == [s[0]] + s[1..];
      Insert(s[0], SortDescending(s[1..]))
  }

  /** A sequence sorted from largest to smallest is fixed by its multiset, so
      any correct sort, stable or not, yields the same degree sequence. */
  lemma {:induction false} SortedPermutationUnique(a: seq<int>, b: seq<int>)
    requires NonIncreasing(a) && NonIncreasing(b)
    requires multiset(a) == multiset(b)
    ensures a == b
    decreases |a|
  {
    assert |a| == |multiset(a)| == |multiset(b)| == |b|;
    if |a| > 0 {
      HeadIsLargest(a, b[0]);
      HeadIsLargest(b, a[0]);
      assert a == [a[0]] + a[1..] && b == [b[0]] + b[1..];
      assert multiset(a[1..]) == multiset(b[1..]) by {
        assert a[0] == b[0];
        assert multiset(a[1..]) == multiset(a) - multiset{a[0]};
        assert multiset(b[1..]) == multiset(b) - multiset{b[0]};
      }
      SortedPermutationUnique(a[1..], b[1..]);
    }
  }

  /** The head of a sequence sorted downwards is at least any of its elements. */
  lemma HeadIsLargest(a: seq<int>, x: int)
    requires NonIncreasing(a) && x in multiset(a)
    ensures |a| > 0 && a[0] >= x
  {
    assert x in a;
    var i :| 0 <= i < |a| && a[i] == x;
  }

  /** The value of every key of `keys`, in that order: `list(d.values())`. */
  function Values(keys: seq<int>, m: map<int, nat>): (r: seq<int>)
    requires forall i :: 0 <= i < |keys| ==> keys[i] in m
    ensures |r| == |keys|
    ensures forall i :: 0 <= i < |keys| ==> r[i] == m[keys[i]]
  {
    seq(|keys|, i requires 0 <= i < |keys| => m[keys[i]])
  }

  /** Values of keys other than `d` do not depend on `d`'s entry. */
  lemma ValuesFrame(keys: seq<int>, m: map<int, nat>, d: int, v: nat)
    requires forall i :: 0 <= i < |keys| ==> keys[i] in m
    requires d !in keys
    ensures Values(keys, m[d := v]) == Values(keys, m)
  {
  }

  /** One more occurrence of a recorded key adds one to the sum of the values. */
  lemma ValuesBump(keys: seq<int>, m: map<int, nat>, d: int)
    requires forall i :: 0 <= i < |keys| ==> keys[i] in m
    requires Distinct(keys) && d in keys
    ensures Sum(Values(keys, m[d := m[d] + 1])) == Sum(Values(keys, m)) + 1
  {
    var k :| 0 <= k < |keys| && keys[k] == d;
    assert Values(keys, m[d := m[d] + 1]) == Values(keys, m)[k := m[d] + 1];
    SumUpdate(Values(keys, m), k, m[d] + 1);
  }

  /** `keys` and `freq` are the dictionary after counting the degrees of
      `p`: keys in first-seen order, each mapped to its number of occurrences. */
  ghost predicate Counted(p: seq<int>, keys: seq<int>, freq: map<int, nat>) {
    && keys == Dedup(p)
    && (forall j :: 0 <= j < |keys| ==> keys[j] in freq)
    && (forall d :: d in freq <==> d in p)
    && (forall d :: d in freq ==> freq[d] == multiset(p)[d] && freq[d] >= 1)
    && Sum(Values(keys, freq)) == |p|
  }

  /** A degree seen before: its count goes up by one, the key order stays. */
  lemma CountKnown(p: seq<int>, d: int, keys: seq<int>, freq: map<int, nat>)
    requires Counted(p, keys, freq) && d in freq
    ensures Counted(p + [d], keys, freq[d := freq[d] + 1])
  {
    var q, freq' := p + [d], freq[d := freq[d] + 1];
    assert q[..|q| - 1] == p;
    assert d in p;
    assert d in keys;
    assert keys == Dedup(q);
    assert multiset(q) == multiset(p) + multiset{d};
    assert forall e :: e in q <==> e in p;
    ValuesBump(keys, freq, d);
  }

  /** A degree not seen before: appended to the keys with count one. */
  lemma CountNew(p: seq<int>, d: int, keys: seq<int>, freq: map<int, nat>)
    requires Counted(p, keys, freq) && d !in freq
    ensures Counted(p + [d], keys + [d], freq[d := 1])
  {
    NewKeyAppended(p, d, keys, freq);
    NewKeyCounted(p, d, keys, freq);
    NewKeyTotal(keys, freq, d);
  }

  /** A new key goes to the end of the key order. */
  lemma NewKeyAppended(p: seq<int>, d: int, keys: seq<int>, freq: map<int, nat>)
    requires Counted(p, keys, freq) && d !in freq
    ensures keys + [d] == Dedup(p + [d])
  {
    var q := p + [d];
    assert q[..|q| - 1] == p;
    assert d !in keys;
  }

  /** A new key enters the dictionary with count one, the other counts stay right. */
  lemma NewKeyCounted(p: seq<int>, d: int, keys: seq<int>, freq: map<int, nat>)
    requires Counted(p, keys, freq) && d !in freq
    ensures forall e :: e in freq[d := 1] <==> e in p + [d]
    ensures forall e :: e in freq[d := 1] ==> freq[d := 1][e] == multiset(p + [d])[e] && freq[d := 1][e] >= 1
  {
    assert forall e :: e in p + [d] <==> e in p || e == d;
    assert multiset(p + [d]) == multiset(p) + multiset{d};
    assert multiset(p)[d] == 0;
  }

  /** A new key with count one adds one to the sum of the values. */
  lemma NewKeyTotal(keys: seq<int>, freq: map<int, nat>, d: int)
    requires forall j :: 0 <= j < |keys| ==> keys[j] in freq
    requires d !in keys
    ensures Sum(Values(keys + [d], freq[d := 1])) == Sum(Values(keys, freq)) + 1
  {
    var vs := Values(keys, freq);
    assert Values(keys + [d], freq[d := 1]) == vs + [1] by {
      ValuesFrame(keys, freq, d, 1);
    }
    assert (vs + [1])[..|vs|] == vs;
  }

  /** Lines 20-25: count every degree of `s` in a dictionary, in first-seen
      key order. */
  method Frequencies(s: seq<int>) returns (keys: seq<int>, freq: map<int, nat>)
    ensures keys == Dedup(s)
    ensures forall d :: d in freq <==> d in s
    ensures forall i :: 0 <= i < |keys| ==> keys[i] in freq
    ensures forall d :: d in freq ==> freq[d] == multiset(s)[d] && freq[d] >= 1
    ensures Sum(Values(keys, freq)) == |s|
  {
    keys, freq := [], map[];
    var i := 0;
    while i < |s|
      invariant 0 <= i <= |s|
      invariant Counted(s[..i], keys, freq)
    {
      var d := s[i];
      assert s[..i + 1] == s[..i] + [d];
      if d in freq {
        CountKnown(s[..i], d, keys, freq);
        freq := freq[d := freq[d] + 1];
      } else {
        CountNew(s[..i], d, keys, freq);
        keys := keys + [d];
        freq := freq[d := 1];
      }
      i := i + 1;
    }
    assert s[..i] == s;
    assert Counted(s, keys, freq);
  }

  /** Lines 15-29: the sorted degree sequence, the distinct degrees from
      largest to smallest, and how many nodes have each of them. */
  method DegreeDistribution(g: Network) returns (sequence: seq<int>, degrees: seq<int>, frequencies: seq<int>)
    ensures NonIncreasing(sequence) && multiset(sequence) == multiset(NodeDegrees(g))
    ensures StrictlyDecreasing(degrees)
    ensures forall d :: d in degrees <==> d in NodeDegrees(g)
    ensures |frequencies| == |degrees|
    ensures forall i :: 0 <= i < |degrees| ==>
              frequencies[i] == multiset(NodeDegrees(g))[degrees[i]] && frequencies[i] >= 1
    ensures Sum(frequencies) == |NodeDegrees(g)|
  {
    sequence := SortDescending(NodeDegrees(g));
    var freq;
    degrees, freq := Frequencies(sequence);
    frequencies := Values(degrees, freq);
    DedupOfNonIncreasing(sequence);
    forall d
      ensures d in degrees <==> d in NodeDegrees(g)
    {
      assert d in sequence <==> d in multiset(sequence);
      assert d in NodeDegrees(g) <==> d in multiset(NodeDegrees(g));
    }
  }
}
