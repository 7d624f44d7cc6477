/** The integer parts of the BigCLAM helpers in analyze_network/BigCLAM.py:
    the degree distance between two graphs, the affiliation lists and their
    inversion into communities in `compute_c`, and the strong-tie counts in
    `compute_p`. */
module BigClam {
  import opened Results
  import opened Seqs

  // ---------------------------------------------------------------------
  // compute_degree_distance
  // ---------------------------------------------------------------------

  /** `abs` on integers. */
  function Abs(x: int): nat {
    if x < 0 then -x else x
  }

  /** `abs(d1[i] - d2[i])` for every position of `d1`. */
  function AbsDiffs(d1: seq<int>, d2: seq<int>): (r: seq<int>)
    requires |d1| <= |d2|
    ensures |r| == |d1|
    ensures forall i :: 0 <= i < |d1| ==> r[i] == Abs(d1[i] - d2[i])
  {
    seq(|d1|, i requires 0 <= i < |d1| => Abs(d1[i] - d2[i]))
  }

  /** Lines 112-115: the sum of the position-wise differences of the two
      degree sequences (in node order), over the positions of the first.
      Indexing the second past its end raises `IndexError`: `None`. */
  function DegreeDistance(d1: seq<int>, d2: seq<int>): (r: Option<nat>)
    ensures r.None? <==> |d1| > |d2|
  {
    if |d1| > |d2| then None
    else
      var diffs := AbsDiffs(d1, d2);
      SumNonNegative(diffs);
      Some(Sum(diffs))
  }

  /** The distance is zero exactly when the second sequence starts with the first. */
  lemma DistanceZero(d1: seq<int>, d2: seq<int>)
    requires |d1| <= |d2|
    ensures DegreeDistance(d1, d2) == Some(0) <==> d1 == d2[..|d1|]
  {
    var diffs := AbsDiffs(d1, d2);
    SumNonNegative(diffs);
    if d1 != d2[..|d1|] {
      var k :| 0 <= k < |d1| && d1[k] != d2[k];
      assert diffs[k] != 0;
    }
  }

  /** Identical degree sequences are at distance zero. */
  lemma DistanceToItself(d: seq<int>)
    ensures DegreeDistance(d, d) == Some(0)
  {
    DistanceZero(d, d);
  }

  /** For sequences of the same length the distance is symmetric. */
  lemma DistanceSymmetric(d1: seq<int>, d2: seq<int>)
    requires |d1| == |d2|
    ensures DegreeDistance(d1, d2) == DegreeDistance(d2, d1)
  {
    assert AbsDiffs(d1, d2) == AbsDiffs(d2, d1);
  }

  /** Degrees of the second graph past the length of the first are ignored. */
  lemma DistanceIgnoresExtra(d1: seq<int>, d2: seq<int>, extra: seq<int>)
    requires |d1| <= |d2|
    ensures DegreeDistance(d1, d2 + extra) == DegreeDistance(d1, d2)
  {
    assert AbsDiffs(d1, d2 + extra) == AbsDiffs(d1, d2);
  }

  /** Entry-wise `a[i] <= b[i] + c[i]` carries over to the sums. */
  lemma {:induction false} SumBounded(a: seq<int>, b: seq<int>, c: seq<int>)
    requires |a| == |b| == |c|
    requires forall i :: 0 <= i < |a| ==> a[i] <= b[i] + c[i]
    ensures Sum(a) <= Sum(b) + Sum(c)
  {
    if |a| > 0 {
      var n := |a| - 1;
      SumBounded(a[..n], b[..n], c[..n]);
    }
  }

  /** The triangle inequality, for sequences of the same length. */
  lemma DistanceTriangle(d1: seq<int>, d2: seq<int>, d3: seq<int>)
    requires |d1| == |d2| == |d3|
    ensures DegreeDistance(d1, d3).value <= DegreeDistance(d1, d2).value + DegreeDistance(d2, d3).value
  {
    SumBounded(AbsDiffs(d1, d3), AbsDiffs(d1, d2), AbsDiffs(d2, d3));
  }

  // ---------------------------------------------------------------------
  // compute_c: affiliations and communities
  // ---------------------------------------------------------------------

  /** Line 69: the communities `i < m` that node `u` is affiliated with, in
      increasing order; `above(u, i)` stands for `F[u][i] > mean`. */
  function Row(m: nat, above: (int, int) -> bool, u: int): (r: seq<int>)
    ensures StrictlyIncreasing(r)
    ensures forall i :: i in r <==> 0 <= i < m && above(u, i)
    ensures forall k :: 0 <= k < |r| ==> 0 <= r[k] < m
  {
    if m == 0 then []
    else
      var init := Row(m - 1, above, u);
      if above(u, m - 1) then init + [m - 1] else init
  }

  /** Lines 68-69: one affiliation list per node `u < n`. */
  function Affiliations(n: nat, m: nat, above: (int, int) -> bool): (aff: seq<seq<int>>)
    ensures |aff| == n
    ensures forall u :: 0 <= u < n ==> StrictlyIncreasing(aff[u])
    ensures forall u, i :: 0 <= u < n ==> (i in aff[u] <==> 0 <= i < m && above(u, i))
  {
    seq(n, u requires 0 <= u < n => Row(m, above, u))
  }

  /** The `communities` dictionary: its keys in insertion order, and the member list of each. */
  datatype Communities = Communities(ids: seq<int>, members: map<int, seq<int>>)

  /** The keys are listed once each, and every key has at least one member. */
  ghost predicate WellFormed(c: Communities) {
    && Distinct(c.ids)
    && (forall i :: i in c.members <==> i in c.ids)
    && (forall i :: i in c.members ==> |c.members[i]| > 0)
  }

  /** Member list of community `i`, empty when `i` is not a key. */
  function Members(c: Communities, i: int): seq<int> {
    if i in c.members then c.members[i] else []
  }

  /** `k` copies of `u`. */
  function Repeat(u: int, k: nat): (r: seq<int>)
    ensures |r| == k && forall j :: 0 <= j < k ==> r[j] == u
  {
    seq(k, _ => u)
  }

  /** Lines 71-74: add node `u` to community `i`, creating the key on first use. */
  function Join(c: Communities, u: int, i: int): (r: Communities)
    ensures forall k :: k in r.members <==> k in c.members || k == i
    ensures Members(r, i) == Members(c, i) + [u]
    ensures forall k :: k != i ==> Members(r, k) == Members(c, k)
    ensures r.ids == if i in c.members then c.ids else c.ids + [i]
  {
    if i !in c.members then Communities(c.ids + [i], c.members[i := [u]])
    else Communities(c.ids, c.members[i := c.members[i] + [u]])
  }

  /** Line 70: `u` joins every community of its affiliation list, in list
      order: each community gains one copy of `u`, at the end of its member
      list, per occurrence in the list. */
  function JoinAll(c: Communities, u: int, row: seq<int>): (r: Communities)
    ensures forall i :: Members(r, i) == Members(c, i) + Repeat(u, multiset(row)[i])
  {
    if |row| == 0 then
      JoinNothing(c, u, row);
      c
    else
      var init, last := row[..|row| - 1], row[|row| - 1];
      var before := JoinAll(c, u, init);
      JoinCountsStep(before, c, u, init, last, row);
      Join(before, u, last)
  }

  /** Lines 67-74: the inversion of the affiliation lists of nodes
      `0 .. |aff|-1`: every key listed once, with at least one member. */
  function Invert(aff: seq<seq<int>>): (r: Communities)
    ensures WellFormed(r)
  {
    if |aff| == 0 then Communities([], map[])
    else
      var n := |aff| - 1;
      JoinAllWellFormed(Invert(aff[..n]), n, aff[n]);
      JoinAll(Invert(aff[..n]), n, aff[n])
  }

  /** Joining keeps the keys listed once and every member list non-empty. */
  lemma JoinWellFormed(c: Communities, u: int, i: int)
    requires WellFormed(c)
    ensures WellFormed(Join(c, u, i))
  {
    var r := Join(c, u, i);
    forall k | k in r.members
      ensures |r.members[k]| > 0
    {
      assert r.members[k] == Members(r, k);
    }
  }

  /** Joining a whole list keeps the keys listed once and every member list non-empty. */
  lemma {:induction false} JoinAllWellFormed(c: Communities, u: int, row: seq<int>)
    requires WellFormed(c)
    ensures WellFormed(JoinAll(c, u, row))
  {
    if |row| > 0 {
      JoinAllWellFormed(c, u, row[..|row| - 1]);
      JoinWellFormed(JoinAll(c, u, row[..|row| - 1]), u, row[|row| - 1]);
    }
  }

  /** All affiliation lists one after the other. */
  function Concat(aff: seq<seq<int>>): seq<int> {
    if |aff| == 0 then [] else Concat(aff[..|aff| - 1]) + aff[|aff| - 1]
  }

  /** A value occurs in the concatenation exactly when some list holds it. */
  lemma {:induction false} ConcatMembers(aff: seq<seq<int>>, x: int)
    ensures x in Concat(aff) <==> exists u :: 0 <= u < |aff| && x in aff[u]
  {
    if |aff| > 0 {
      var n := |aff| - 1;
      ConcatMembers(aff[..n], x);
      if x in Concat(aff[..n]) {
        var u :| 0 <= u < n && x in aff[..n][u];
        assert x in aff[u];
      }
      if exists u :: 0 <= u < |aff| && x in aff[u] {
        var u :| 0 <= u < |aff| && x in aff[u];
        if u < n {
          assert x in aff[..n][u];
        }
      }
    }
  }

  /** The step of `JoinAll`: joining one more community keeps every count right. */
  lemma JoinCountsStep(before: Communities, c: Communities, u: int, init: seq<int>, j: int, row: seq<int>)
    requires row == init + [j]
    requires forall i :: Members(before, i) == Members(c, i) + Repeat(u, multiset(init)[i])
    ensures forall i :: Members(Join(before, u, j), i) == Members(c, i) + Repeat(u, multiset(row)[i])
  {
    forall i
      ensures Members(Join(before, u, j), i) == Members(c, i) + Repeat(u, multiset(row)[i])
    {
      CountSnoc(init, j, i);
      JoinMembersStep(before, Members(c, i), u, j, i, multiset(init)[i]);
    }
  }

  /** Joining an empty list changes no member list. */
  lemma JoinNothing(c: Communities, u: int, row: seq<int>)
    requires |row| == 0
    ensures forall i :: Members(c, i) == Members(c, i) + Repeat(u, multiset(row)[i])
  {
    forall i
      ensures Members(c, i) == Members(c, i) + Repeat(u, multiset(row)[i])
    {
      assert Repeat(u, multiset(row)[i]) == [];
    }
  }

  /** One join adds one copy of `u` to community `i` exactly when it joins `i`. */
  lemma JoinMembersStep(before: Communities, prefix: seq<int>, u: int, j: int, i: int, k: nat)
    requires Members(before, i) == prefix + Repeat(u, k)
    ensures Members(Join(before, u, j), i) == prefix + Repeat(u, k + if j == i then 1 else 0)
  {
    if j == i {
      RepeatSnoc(u, k);
      assert (prefix + Repeat(u, k)) + [u] == prefix + (Repeat(u, k) + [u]);
    }
  }

  /** One more copy goes at the end. */
  lemma RepeatSnoc(u: int, k: nat)
    ensures Repeat(u, k) + [u] == Repeat(u, k + 1)
  {
    assert (Repeat(u, k) + [u])[k] == u;
  }

  /** New keys are appended in order of first appearance in `row`. */
  lemma {:induction false} JoinAllIds(c: Communities, u: int, row: seq<int>)
    requires WellFormed(c)
    ensures JoinAll(c, u, row).ids == Dedup(c.ids + row)
  {
    if |row| == 0 {
      assert c.ids + row == c.ids;
    } else {
      var init, last := row[..|row| - 1], row[|row| - 1];
      var before := JoinAll(c, u, init);
      JoinAllIds(c, u, init);
      JoinAllWellFormed(c, u, init);
      assert JoinAll(c, u, row) == Join(before, u, last);
      AppendSplitLast(c.ids, row);
      JoinIdsStep(before, u, last, c.ids + init, c.ids + row);
    }
  }

  /** One join keeps the keys in first-appearance order of the communities joined. */
  lemma JoinIdsStep(before: Communities, u: int, j: int, joined: seq<int>, all: seq<int>)
    requires WellFormed(before) && before.ids == Dedup(joined) && all == joined + [j]
    ensures Join(before, u, j).ids == Dedup(all)
  {
    DedupSnoc(joined, j);
  }

  /** Community keys appear in order of first appearance over the affiliation lists. */
  lemma {:induction false} InvertOrder(aff: seq<seq<int>>)
    ensures Invert(aff).ids == Dedup(Concat(aff))
  {
    if |aff| > 0 {
      var n := |aff| - 1;
      InvertOrder(aff[..n]);
      JoinAllIds(Invert(aff[..n]), n, aff[n]);
      DedupAppend(Concat(aff[..n]), aff[n]);
    }
  }

  /** Multiplicities of `v` in `k` copies of `u`. */
  lemma RepeatCount(u: int, k: nat, v: int)
    ensures multiset(Repeat(u, k))[v] == if v == u then k else 0
  {
    if v != u {
      assert v !in multiset(Repeat(u, k));
    } else if k > 0 {
      assert Repeat(u, k) == Repeat(u, k - 1) + [u];
      RepeatCount(u, k - 1, v);
    }
  }

  /** Node `v` occurs in community `i` as often as `i` occurs in `v`'s affiliation list. */
  lemma {:induction false} InvertCounts(aff: seq<seq<int>>, i: int, v: int)
    ensures multiset(Members(Invert(aff), i))[v] == if 0 <= v < |aff| then multiset(aff[v])[i] else 0
  {
    if |aff| > 0 {
      var n := |aff| - 1;
      var before := Members(Invert(aff[..n]), i);
      var added := Repeat(n, multiset(aff[n])[i]);
      assert Members(Invert(aff), i) == before + added;
      assert multiset(before + added) == multiset(before) + multiset(added);
      InvertCounts(aff[..n], i, v);
      RepeatCount(n, multiset(aff[n])[i], v);
      if 0 <= v < n {
        assert aff[..n][v] == aff[v];
      }
    }
  }

  /** Member lists are sorted by node, since nodes are visited in increasing order. */
  lemma {:induction false} InvertSorted(aff: seq<seq<int>>, i: int)
    ensures NonDecreasing(Members(Invert(aff), i))
  {
    if |aff| > 0 {
      var n := |aff| - 1;
      var before := Members(Invert(aff[..n]), i);
      InvertSorted(aff[..n], i);
      forall j | 0 <= j < |before|
        ensures before[j] < n
      {
        InvertCounts(aff[..n], i, before[j]);
        assert before[j] in multiset(before);
      }
      AppendRepeatSorted(before, n, multiset(aff[n])[i]);
      assert Members(Invert(aff), i) == before + Repeat(n, multiset(aff[n])[i]);
    }
  }

  /** Copies of a value at least every entry keep a sorted sequence sorted. */
  lemma AppendRepeatSorted(s: seq<int>, u: int, k: nat)
    requires NonDecreasing(s) && forall j :: 0 <= j < |s| ==> s[j] < u
    ensures NonDecreasing(s + Repeat(u, k))
  {
  }

  /** A community is a key exactly when some node is affiliated with it, and
      then it has at least one member. */
  lemma InvertKeys(aff: seq<seq<int>>, i: int)
    ensures i in Invert(aff).members <==> exists u :: 0 <= u < |aff| && i in aff[u]
    ensures i in Invert(aff).members ==> |Invert(aff).members[i]| > 0
  {
    InvertOrder(aff);
    ConcatMembers(aff, i);
  }

  /** With duplicate-free affiliation lists (as `compute_c` builds them),
      `u` is a member of community `i` exactly when `i` is in `u`'s list, and
      each member list is strictly increasing. */
  lemma InvertMembership(aff: seq<seq<int>>, i: int)
    requires forall u :: 0 <= u < |aff| ==> Distinct(aff[u])
    ensures StrictlyIncreasing(Members(Invert(aff), i))
    ensures forall u :: 0 <= u < |aff| ==> (u in Members(Invert(aff), i) <==> i in aff[u])
    ensures forall u :: u in Members(Invert(aff), i) ==> 0 <= u < |aff|
  {
    var ms := Members(Invert(aff), i);
    InvertSorted(aff, i);
    forall x
      ensures multiset(ms)[x] <= 1
      ensures x in ms <==> 0 <= x < |aff| && i in aff[x]
    {
      InvertCounts(aff, i, x);
      if 0 <= x < |aff| {
        DistinctCountsAtMostOne(aff[x], i);
      }
    }
    NonDecreasingSingletons(ms);
  }

  /** Lines 67-74 end to end: `u` is in community `i` exactly when `i < m`,
      `u < n` and `F[u][i]` is above the mean. */
  lemma CommunitiesOfAffiliations(n: nat, m: nat, above: (int, int) -> bool, i: int, u: int)
    ensures u in Members(Invert(Affiliations(n, m, above)), i) <==> 0 <= u < n && 0 <= i < m && above(u, i)
    ensures StrictlyIncreasing(Members(Invert(Affiliations(n, m, above)), i))
  {
    var aff := Affiliations(n, m, above);
    forall v | 0 <= v < |aff|
      ensures Distinct(aff[v])
    {
      StrictlyIncreasingIsDistinct(aff[v]);
    }
    InvertMembership(aff, i);
  }

  // ---------------------------------------------------------------------
  // compute_p: strong ties
  // ---------------------------------------------------------------------

  /** How many entries of `nbrs` (counted by position) are nodes affiliated
      with community `i`; an entry that is not a node of `aff` counts nothing. */
  function Count(nbrs: seq<int>, aff: seq<seq<int>>, i: int): nat {
    if |nbrs| == 0 then 0
    else
      var v := nbrs[|nbrs| - 1];
      Count(nbrs[..|nbrs| - 1], aff, i) + if 0 <= v < |aff| && i in aff[v] then 1 else 0
  }

  /** The positions of `nbrs` holding a node affiliated with `i`. */
  function AffiliatedPositions(nbrs: seq<int>, aff: seq<seq<int>>, i: int): set<int> {
    set j | 0 <= j < |nbrs| && 0 <= nbrs[j] < |aff| && i in aff[nbrs[j]]
  }

  /** `Count` is the number of neighbours affiliated with `i`. */
  lemma {:induction false} CountIsPositions(nbrs: seq<int>, aff: seq<seq<int>>, i: int)
    ensures Count(nbrs, aff, i) == |AffiliatedPositions(nbrs, aff, i)|
  {
    if |nbrs| > 0 {
      var n := |nbrs| - 1;
      CountIsPositions(nbrs[..n], aff, i);
      var before := AffiliatedPositions(nbrs[..n], aff, i);
      var v := nbrs[n];
      assert n !in before;
      if 0 <= v < |aff| && i in aff[v] {
        assert AffiliatedPositions(nbrs, aff, i) == before + {n};
      } else {
        assert AffiliatedPositions(nbrs, aff, i) == before;
      }
    }
  }

  /** The value of key `i`, 0 when absent. */
  function Get(m: map<int, nat>, i: int): nat {
    if i in m then m[i] else 0
  }

  /** Lines 91-96 for one community `i` of `u`'s list: every neighbour
      affiliated with `i` adds one to `i`'s tally, creating the key at 1. */
  function Tally(m: map<int, nat>, i: int, nbrs: seq<int>, aff: seq<seq<int>>): (r: map<int, nat>)
    requires forall j :: 0 <= j < |nbrs| ==> 0 <= nbrs[j] < |aff|
    ensures Get(r, i) == Get(m, i) + Count(nbrs, aff, i)
    ensures i in r <==> i in m || Count(nbrs, aff, i) > 0
    ensures forall k :: k != i ==> (k in r <==> k in m)
    ensures forall k :: k != i && k in m ==> r[k] == m[k]
  {
    if |nbrs| == 0 then m
    else
      var before := Tally(m, i, nbrs[..|nbrs| - 1], aff);
      if i in aff[nbrs[|nbrs| - 1]] then
        if i !in before then before[i := 1] else before[i := before[i] + 1]
      else before
  }

  /** Lines 90-96: the tallies of every community of `row`, one after the
      other. Tallies only grow, keys are never dropped, and only communities
      of `row` change. */
  function TiesOf(m: map<int, nat>, row: seq<int>, nbrs: seq<int>, aff: seq<seq<int>>): (r: map<int, nat>)
    requires forall j :: 0 <= j < |nbrs| ==> 0 <= nbrs[j] < |aff|
    ensures forall k :: k in m ==> k in r && r[k] >= m[k]
    ensures forall k :: k in r ==> k in m || k in row
    ensures forall k :: k !in row ==> Get(r, k) == Get(m, k)
  {
    if |row| == 0 then m
    else
      var init, last := row[..|row| - 1], row[|row| - 1];
      assert row == init + [last];
      Tally(TiesOf(m, init, nbrs, aff), last, nbrs, aff)
  }

  /** One more copy of `c` in a product. */
  lemma MulSucc(k: int, c: int)
    ensures (k + 1) * c == k * c + c
  {
  }

  /** Community `i` is tallied once per occurrence in `row`. */
  lemma {:induction false} TiesOfTotal(m: map<int, nat>, row: seq<int>, nbrs: seq<int>, aff: seq<seq<int>>, i: int)
    requires forall j :: 0 <= j < |nbrs| ==> 0 <= nbrs[j] < |aff|
    ensures Get(TiesOf(m, row, nbrs, aff), i) == Get(m, i) + multiset(row)[i] * Count(nbrs, aff, i)
  {
    if |row| > 0 {
      var init, last := row[..|row| - 1], row[|row| - 1];
      var before := TiesOf(m, init, nbrs, aff);
      var k, c := multiset(init)[i], Count(nbrs, aff, i);
      TiesOfTotal(m, init, nbrs, aff, i);
      assert multiset(row)[i] == k + (if last == i then 1 else 0) by {
        assert row == init + [last];
        CountSnoc(init, last, i);
      }
      if last == i {
        assert Get(TiesOf(m, row, nbrs, aff), i) == Get(before, i) + c;
        MulSucc(k, c);
      } else {
        assert Get(TiesOf(m, row, nbrs, aff), i) == Get(before, i);
      }
    }
  }

  /** Community `i` is a key exactly when it was one already, or it is in
      `row` and some neighbour is affiliated with it. */
  lemma {:induction false} TiesOfKeys(m: map<int, nat>, row: seq<int>, nbrs: seq<int>, aff: seq<seq<int>>, i: int)
    requires forall j :: 0 <= j < |nbrs| ==> 0 <= nbrs[j] < |aff|
    ensures i in TiesOf(m, row, nbrs, aff) <==> i in m || (i in row && Count(nbrs, aff, i) > 0)
  {
    if |row| > 0 {
      var init, last := row[..|row| - 1], row[|row| - 1];
      TiesOfKeys(m, init, nbrs, aff, i);
      assert i in row <==> i in init || i == last by {
        assert row == init + [last];
      }
    }
  }

  /** Node `u` cannot be processed: it has affiliations but is not a node of
      the graph (`G.neighbors` raises), or one of its neighbours has no
      affiliation list (`affiliations[neighbor]` raises `KeyError`). */
  predicate Faulty(adj: seq<seq<int>>, aff: seq<seq<int>>, u: int)
    requires 0 <= u < |aff|
  {
    |aff[u]| > 0 && (u >= |adj| || exists j :: 0 <= j < |adj[u]| && !(0 <= adj[u][j] < |aff|))
  }

  /** Number of neighbours of `u` in the graph (`adj[u]` lists them) that are affiliated with `i`. */
  function NeighbourCount(adj: seq<seq<int>>, aff: seq<seq<int>>, u: int, i: int): nat {
    if 0 <= u < |adj| then Count(adj[u], aff, i) else 0
  }

  /** Lines 87-96: `num_strong_ties_per_community`, one dictionary per node
      of `affiliations`; `None` where the loop raises. */
  function StrongTies(adj: seq<seq<int>>, aff: seq<seq<int>>): (r: Option<seq<map<int, nat>>>)
    ensures r.None? <==> exists u :: 0 <= u < |aff| && Faulty(adj, aff, u)
    ensures r.Some? ==> |r.value| == |aff|
  {
    if exists u :: 0 <= u < |aff| && Faulty(adj, aff, u) then None
    else Some(seq(|aff|, u requires 0 <= u < |aff| && !Faulty(adj, aff, u) => NodeTies(adj, aff, u)))
  }

  /** Lines 89-96 for one node that does not raise: `{}` refined by the
      tallies of its communities. Community `i` is a key exactly when it is
      in `u`'s list and some neighbour is affiliated with it, and its value is
      that number of neighbours, once per occurrence of `i` in the list. */
  function NodeTies(adj: seq<seq<int>>, aff: seq<seq<int>>, u: int): (r: map<int, nat>)
    requires 0 <= u < |aff| && !Faulty(adj, aff, u)
    ensures forall i :: i in r <==> i in aff[u] && NeighbourCount(adj, aff, u, i) > 0
    ensures forall i :: Get(r, i) == multiset(aff[u])[i] * NeighbourCount(adj, aff, u, i)
  {
    if |aff[u]| == 0 then map[]
    else
      var r := TiesOf(map[], aff[u], adj[u], aff);
      assert forall i :: (i in r <==> i in aff[u] && NeighbourCount(adj, aff, u, i) > 0)
                         && Get(r, i) == multiset(aff[u])[i] * NeighbourCount(adj, aff, u, i) by {
        forall i
          ensures i in r <==> i in aff[u] && NeighbourCount(adj, aff, u, i) > 0
          ensures Get(r, i) == multiset(aff[u])[i] * NeighbourCount(adj, aff, u, i)
        {
          TiesOfTotal(map[], aff[u], adj[u], aff, i);
          TiesOfKeys(map[], aff[u], adj[u], aff, i);
        }
      }
      r
  }

  /** Every node gets a dictionary; community `i` is a key of node `u`'s
      exactly when `i` is in `u`'s list and some neighbour of `u` is
      affiliated with `i`, and its value is that number of neighbours, once
      per occurrence of `i` in the list. */
  lemma StrongTiesCounts(adj: seq<seq<int>>, aff: seq<seq<int>>, u: int, i: int)
    requires StrongTies(adj, aff).Some? && 0 <= u < |aff|
    ensures i in StrongTies(adj, aff).value[u] <==> i in aff[u] && NeighbourCount(adj, aff, u, i) > 0
    ensures Get(StrongTies(adj, aff).value[u], i) == multiset(aff[u])[i] * NeighbourCount(adj, aff, u, i)
  {
    assert !Faulty(adj, aff, u);
    assert StrongTies(adj, aff).value[u] == NodeTies(adj, aff, u);
  }

  /** With duplicate-free affiliation lists, each tally is exactly the number
      of neighbours affiliated with the community. */
  lemma StrongTiesOfDistinctRows(adj: seq<seq<int>>, aff: seq<seq<int>>, u: int, i: int)
    requires StrongTies(adj, aff).Some? && 0 <= u < |aff| && Distinct(aff[u])
    requires i in StrongTies(adj, aff).value[u]
    ensures u < |adj| && StrongTies(adj, aff).value[u][i] == |AffiliatedPositions(adj[u], aff, i)|
  {
    var ties := StrongTies(adj, aff).value[u];
    StrongTiesCounts(adj, aff, u, i);
    assert u < |adj| && NeighbourCount(adj, aff, u, i) == Count(adj[u], aff, i);
    SingleTally(ties, aff[u], i, Count(adj[u], aff, i));
    CountIsPositions(adj[u], aff, i);
  }

  /** A tally of `n` per occurrence of a community listed once is `n`. */
  lemma SingleTally(ties: map<int, nat>, row: seq<int>, i: int, n: nat)
    requires Distinct(row) && i in row && i in ties
    requires Get(ties, i) == multiset(row)[i] * n
    ensures ties[i] == n
  {
    DistinctCountsAtMostOne(row, i);
  }
}
