/** One side of the UCB learner (the node arms or the auction arms): the
    learner's three dictionaries for that side (play counts, reward totals and
    UCB scores) kept together per arm, plus the dictionaries' insertion order. */
module ArmTable {
  import opened Seqs

  /** A UCB score: `float("inf")` for an arm whose score was never
      recomputed, otherwise a finite value computed by the UCB formula. */
  datatype Ext = Inf | Finite(value: real)

  /** `a > b` as Python compares the two floats. */
  predicate Above(a: Ext, b: Ext) {
    match a
    case Inf => b.Finite?
    case Finite(x) => b.Finite? && x > b.value
  }

  /** A play count that the UCB formula divides by: never zero. */
  type Pos = n: int | n >= 1 witness 1

  /** The finite UCB formula `rew/n + sqrt(2*log(t)/n)`, taken as a parameter:
      (reward total, play count, time or horizon) to score. */
  type Formula = (real, Pos, int) -> real

  /** Play count, reward total and score of one arm. */
  datatype Stats = Stats(plays: nat, reward: real, score: Ext)

  /** The entry every arm starts with. */
  const Untried := Stats(0, 0.0, Inf)

  /** The arms in dictionary insertion order, and each arm's entry. */
  datatype Table<A> = Table(arms: seq<A>, stats: map<A, Stats>)

  /** The arms are the dictionary keys, each listed once. */
  predicate Valid<A(!new)>(t: Table<A>) {
    && Distinct(t.arms)
    && (forall i :: 0 <= i < |t.arms| ==> t.arms[i] in t.stats)
    && (forall a :: a in t.stats ==> a in t.arms)
  }

  /** A new table over `arms`, every entry untried: the dictionary
      comprehensions `{a: 0 for a in arms}` and `{a: float("inf") for a in arms}`,
      whose keys keep the first occurrence of a repeated arm. */
  function Fresh<A(!new)>(arms: seq<A>): (t: Table<A>)
    ensures Valid(t)
    ensures forall a :: a in t.stats <==> a in arms
    ensures forall a :: a in t.stats ==> t.stats[a] == Untried
    ensures t.arms == Dedup(arms) && FirstOccurrenceOrder(t.arms, arms)
    ensures Distinct(arms) ==> t.arms == arms
  {
    var keys := Dedup(arms);
    DedupOrder(arms);
    Table(keys, map a | a in keys :: Untried)
  }

  /** Score of the arm at position `i`. */
  function Score<A(!new)>(t: Table<A>, i: int): Ext
    requires Valid(t) && 0 <= i < |t.arms|
  {
    t.stats[t.arms[i]].score
  }

  /** Position `k` holds a maximal score and every earlier arm scores strictly less:
      the arm that Python's `max(d, key=d.get)` returns. */
  predicate FirstMaximum<A(!new)>(t: Table<A>, k: int)
    requires Valid(t)
  {
    && 0 <= k < |t.arms|
    && (forall i :: 0 <= i < |t.arms| ==> !Above(Score(t, i), Score(t, k)))
    && (forall i :: 0 <= i < k ==> Above(Score(t, k), Score(t, i)))
  }

  /** The scan of `max`: positions before `j` are seen, `best` is the first maximum so far. */
  function Scan<A(!new)>(t: Table<A>, j: nat, best: nat): (k: nat)
    requires Valid(t) && best < j <= |t.arms|
    requires forall i :: 0 <= i < j ==> !Above(Score(t, i), Score(t, best))
    requires forall i :: 0 <= i < best ==> Above(Score(t, best), Score(t, i))
    ensures FirstMaximum(t, k)
    decreases |t.arms| - j
  {
    if j == |t.arms| then best
    else if Above(Score(t, j), Score(t, best)) then
      NewMaximum(t, j, best);
      Scan(t, j + 1, j)
    else Scan(t, j + 1, best)
  }

  /** An arm scoring strictly above the maximum so far is strictly above every arm seen. */
  lemma NewMaximum<A(!new)>(t: Table<A>, j: nat, best: nat)
    requires Valid(t) && best < j < |t.arms|
    requires forall i :: 0 <= i < j ==> !Above(Score(t, i), Score(t, best))
    requires Above(Score(t, j), Score(t, best))
    ensures forall i :: 0 <= i < j ==> Above(Score(t, j), Score(t, i))
  {
  }

  /** The position of the arm `max(scores, key=scores.get)` picks. */
  function Best<A(!new)>(t: Table<A>): (k: nat)
    requires Valid(t) && |t.arms| > 0
    ensures FirstMaximum(t, k)
  {
    Scan(t, 1, 0)
  }

  /** There is only one first maximum, so `Best` is determined by its contract. */
  lemma FirstMaximumUnique<A(!new)>(t: Table<A>, k1: int, k2: int)
    requires Valid(t) && FirstMaximum(t, k1) && FirstMaximum(t, k2)
    ensures k1 == k2
  {
    assert !Above(Score(t, k2), Score(t, k1));
    assert !Above(Score(t, k1), Score(t, k2));
  }

  /** The play counts in arm order. */
  function PlayList<A(!new)>(t: Table<A>): (r: seq<int>)
    requires Valid(t)
    ensures |r| == |t.arms| && forall i :: 0 <= i < |r| ==> r[i] == t.stats[t.arms[i]].plays
  {
    seq(|t.arms|, i requires 0 <= i < |t.arms| => t.stats[t.arms[i]].plays)
  }

  /** The reward totals in arm order. */
  function RewardList<A(!new)>(t: Table<A>): (r: seq<real>)
    requires Valid(t)
    ensures |r| == |t.arms| && forall i :: 0 <= i < |r| ==> r[i] == t.stats[t.arms[i]].reward
  {
    seq(|t.arms|, i requires 0 <= i < |t.arms| => t.stats[t.arms[i]].reward)
  }

  /** Total number of plays over the arms of the table. */
  function Plays<A(!new)>(t: Table<A>): int
    requires Valid(t)
  {
    Sum(PlayList(t))
  }

  /** Total reward credited over the arms of the table. */
  function Earned<A(!new)>(t: Table<A>): real
    requires Valid(t)
  {
    SumReal(RewardList(t))
  }

  /** A new table has played nothing and earned nothing. */
  lemma FreshTotals<A(!new)>(arms: seq<A>)
    ensures Plays(Fresh(arms)) == 0 && Earned(Fresh(arms)) == 0.0
  {
    var t := Fresh(arms);
    SumNonNegative(PlayList(t));
    SumRealZero(RewardList(t));
  }

  /** The position of an arm in the table. */
  function IndexOf<A(!new)>(t: Table<A>, a: A): (k: nat)
    requires Valid(t) && a in t.stats
    ensures k < |t.arms| && t.arms[k] == a
  {
    var k :| 0 <= k < |t.arms| && t.arms[k] == a;
    k
  }

  /** Arms are listed once, so the position of the arm at `k` is `k`. */
  lemma IndexOfAt<A(!new)>(t: Table<A>, k: int)
    requires Valid(t) && 0 <= k < |t.arms|
    ensures IndexOf(t, t.arms[k]) == k
  {
    var j := IndexOf(t, t.arms[k]);
    assert t.arms[j] == t.arms[k];
  }

  /** Changing one arm's entry changes the totals by exactly that entry's difference. */
  lemma TotalsAfterUpdate<A(!new)>(t: Table<A>, a: A, e: Stats)
    requires Valid(t) && a in t.stats
    ensures Valid(t.(stats := t.stats[a := e]))
    ensures Plays(t.(stats := t.stats[a := e])) == Plays(t) - t.stats[a].plays + e.plays
    ensures Earned(t.(stats := t.stats[a := e])) == Earned(t) - t.stats[a].reward + e.reward
  {
    var t' := t.(stats := t.stats[a := e]);
    var k := IndexOf(t, a);
    assert Valid(t');
    // the arms are listed once, so only position `k` holds `a`
    forall i | 0 <= i < |t.arms| && i != k
      ensures t'.stats[t.arms[i]] == t.stats[t.arms[i]]
    {
      assert t.arms[i] != t.arms[k];
    }
    assert PlayList(t') == PlayList(t)[k := e.plays];
    assert RewardList(t') == RewardList(t)[k := e.reward];
    SumUpdate(PlayList(t), k, e.plays);
    SumRealUpdate(RewardList(t), k, e.reward);
  }

  /** `self.__num_...[arm] += 1`: one more play of `a`, nothing else changes. */
  function Bump<A(!new)>(t: Table<A>, a: A): (t': Table<A>)
    requires Valid(t) && a in t.stats
    ensures Valid(t') && t'.arms == t.arms && t'.stats.Keys == t.stats.Keys
    ensures t'.stats[a].plays == t.stats[a].plays + 1
    ensures t'.stats[a].reward == t.stats[a].reward && t'.stats[a].score == t.stats[a].score
    ensures forall b :: b in t.stats && b != a ==> t'.stats[b] == t.stats[b]
    ensures Plays(t') == Plays(t) + 1 && Earned(t') == Earned(t)
  {
    var e := t.stats[a];
    TotalsAfterUpdate(t, a, e.(plays := e.plays + 1));
    t.(stats := t.stats[a := e.(plays := e.plays + 1)])
  }

  /** `self.__rew_...[arm] += reward` followed by the score recomputation for
      that arm only; `now` is the horizon `T` or the elapsed time `t`. */
  function Credit<A(!new)>(t: Table<A>, a: A, reward: real, now: int, ucb: Formula): (t': Table<A>)
    requires Valid(t) && a in t.stats && t.stats[a].plays >= 1
    ensures Valid(t') && t'.arms == t.arms && t'.stats.Keys == t.stats.Keys
    ensures t'.stats[a].plays == t.stats[a].plays
    ensures t'.stats[a].reward == t.stats[a].reward + reward
    ensures t'.stats[a].score == Finite(ucb(t'.stats[a].reward, t.stats[a].plays, now))
    ensures forall b :: b in t.stats && b != a ==> t'.stats[b] == t.stats[b]
    ensures Plays(t') == Plays(t) && Earned(t') == Earned(t) + reward
  {
    var e := t.stats[a];
    var total := e.reward + reward;
    var e' := Stats(e.plays, total, Finite(ucb(total, e.plays, now)));
    TotalsAfterUpdate(t, a, e');
    t.(stats := t.stats[a := e'])
  }

  /** Every arm at a position below `k` was played once and rewarded; every
      arm from `k` on is untouched. */
  predicate Explored<A(!new)>(t: Table<A>, k: nat) {
    && Valid(t)
    && k <= |t.arms|
    && (forall i :: 0 <= i < k ==> t.stats[t.arms[i]].plays == 1 && t.stats[t.arms[i]].score.Finite?)
    && (forall i :: k <= i < |t.arms| ==> t.stats[t.arms[i]] == Untried)
  }

  /** With finite scores for the rewarded arms, the first arm still scored +inf is chosen. */
  lemma UntriedChosenFirst<A(!new)>(t: Table<A>, k: nat)
    requires Explored(t, k) && k < |t.arms|
    ensures Best(t) == k
  {
    assert Score(t, k) == Inf;
    assert FirstMaximum(t, k) by {
      forall i | 0 <= i < k
        ensures Above(Score(t, k), Score(t, i))
      {
        assert Score(t, i).Finite?;
      }
    }
    FirstMaximumUnique(t, k, Best(t));
  }

  /** A play of the first untried arm followed by a reward extends the explored prefix by one. */
  lemma ExploreNext<A(!new)>(t: Table<A>, k: nat, reward: real, now: int, ucb: Formula)
    requires Explored(t, k) && k < |t.arms|
    ensures Explored(Credit(Bump(t, t.arms[k]), t.arms[k], reward, now, ucb), k + 1)
  {
    var a := t.arms[k];
    var t1 := Bump(t, a);
    var t2 := Credit(t1, a, reward, now, ucb);
    forall i | 0 <= i < |t.arms| && i != k
      ensures t2.stats[t.arms[i]] == t.stats[t.arms[i]]
    {
      assert t.arms[i] != a;
      assert t1.stats[t.arms[i]] == t.stats[t.arms[i]];
    }
    assert t2.stats[a].plays == 1;
  }
}
