/** `UCB_Learner` of multi_armed_bandit.py: a learner over two independent arm
    spaces, node combinations of size `num_seeds` and auctions. Each play picks
    the highest-scoring arm of each space; each reward is credited to the last
    pair played and refreshes only those two scores. The learner is an
    immutable value and every method a transition returning the next value. */
module UcbLearner {
  import opened Results
  import opened Seqs
  import opened Itertools
  import opened ArmTable

  /** `T` when a horizon is given, otherwise the elapsed-time counter `t`. */
  datatype Clock = Horizon(T: int) | Elapsed(t: int)

  /** The learner's state: node-arm table, auction-arm table, clock and
      `last_played_arm`. */
  datatype Learner<Node(==), Auction(==)> = Learner(
    nodes: Table<seq<Node>>,
    auctions: Table<Auction>,
    clock: Clock,
    last: Option<(seq<Node>, Auction)>)

  /** The exceptions the learner's methods can raise. */
  datatype Error =
    | NegativeSeedCount  // itertools.combinations with a negative size
    | NoArms             // max() of an empty score dictionary
    | NothingPlayed      // indexing last_played_arm while it is None
    | LogOfNonPositive   // math.log of a horizon T <= 0

  /** The value the UCB formula takes its logarithm of. */
  function Now(c: Clock): int {
    match c
    case Horizon(T) => T
    case Elapsed(t) => t
  }

  /** `math.log` accepts the clock's value. The elapsed time starts at 1 and
      only grows; a horizon is whatever the caller passed. */
  predicate LogDefined(c: Clock) {
    c.Horizon? ==> c.T > 0
  }

  /** The clock after one reward: only the elapsed-time counter moves. */
  function Tick(c: Clock): Clock {
    match c
    case Horizon(_) => c
    case Elapsed(t) => Elapsed(t + 1)
  }

  /** The clock after `n` rewards. */
  function TickBy(c: Clock, n: nat): Clock {
    match c
    case Horizon(_) => c
    case Elapsed(t) => Elapsed(t + n)
  }

  /** An arm that was never played still has reward 0 and score +inf. */
  predicate Untouched<A(!new)>(t: Table<A>) {
    forall a :: a in t.stats && t.stats[a].plays == 0 ==> t.stats[a] == Untried
  }

  /** What the learner's fields always satisfy: both tables well formed, the
      elapsed time at least 1, the last pair played at least once. */
  predicate Consistent<Node(==, !new), Auction(==, !new)>(l: Learner<Node, Auction>) {
    && ArmTable.Valid(l.nodes) && ArmTable.Valid(l.auctions)
    && Untouched(l.nodes) && Untouched(l.auctions)
    && (l.clock.Elapsed? ==> l.clock.t >= 1)
    && (l.last.Some? ==>
          && l.last.value.0 in l.nodes.stats && l.nodes.stats[l.last.value.0].plays >= 1
          && l.last.value.1 in l.auctions.stats && l.auctions.stats[l.last.value.1].plays >= 1)
  }

  /** Every play and every reward touches one node arm and one auction arm,
      so both sides carry the same totals. */
  predicate Balanced<Node(==, !new), Auction(==, !new)>(l: Learner<Node, Auction>)
    requires Consistent(l)
  {
    Plays(l.nodes) == Plays(l.auctions) && Earned(l.nodes) == Earned(l.auctions)
  }

  /** The node arms of a new learner are the `k`-element subsequences of
      `nodes`, listed in `itertools.combinations` order when the nodes are distinct. */
  lemma NodeArmSpace<Node(!new)>(nodes: seq<Node>, k: nat)
    ensures forall c :: c in Fresh(Combinations(nodes, k)).stats <==> |c| == k && Subsequence(c, nodes)
    ensures Distinct(nodes) ==> Fresh(Combinations(nodes, k)).arms == Combinations(nodes, k)
  {
    forall c
      ensures c in Fresh(Combinations(nodes, k)).stats <==> |c| == k && Subsequence(c, nodes)
    {
      CombinationsAreSubsequences(nodes, k, c);
    }
    if Distinct(nodes) {
      CombinationsOfDistinct(nodes, k);
    }
  }

  /** `__init__`: node arms are the `num_seeds`-combinations of `nodes`,
      auction arms are `auctions`, everything untried, nothing played yet. */
  function Init<Node(==, !new), Auction(==, !new)>(numSeeds: int, nodes: seq<Node>, auctions: seq<Auction>, horizon: Option<int>)
    : (r: Result<Learner<Node, Auction>, Error>)
    ensures r.Failure? <==> numSeeds < 0
    ensures r.Success? ==>
      && Consistent(r.value) && Balanced(r.value)
      && r.value.last == None
      && Explored(r.value.nodes, 0) && Explored(r.value.auctions, 0)
      && Plays(r.value.nodes) == 0 && Earned(r.value.nodes) == 0.0
      && r.value.clock == (if horizon.None? then Elapsed(1) else Horizon(horizon.value))
    ensures r.Success? ==> forall c :: c in r.value.nodes.stats <==> |c| == numSeeds && Subsequence(c, nodes)
    ensures r.Success? ==> forall a :: a in r.value.auctions.stats <==> a in auctions
    ensures r.Success? ==> r.value.nodes.arms == Dedup(Combinations(nodes, numSeeds))
    ensures r.Success? ==> r.value.auctions.arms == Dedup(auctions)
    ensures r.Success? && Distinct(nodes) ==> r.value.nodes.arms == Combinations(nodes, numSeeds)
    ensures r.Success? && Distinct(auctions) ==> r.value.auctions.arms == auctions
  {
    if numSeeds < 0 then Failure(NegativeSeedCount)
    else
      var combos := Combinations(nodes, numSeeds);
      var l := Learner(Fresh(combos), Fresh(auctions),
                       if horizon.None? then Elapsed(1) else Horizon(horizon.value), None);
      NewLearner(combos, auctions, l);
      NodeArmSpace(nodes, numSeeds);
      Success(l)
  }

  /** A learner over fresh tables that has played nothing is consistent and
      balanced, with every arm untried. */
  lemma NewLearner<Node(!new), Auction(!new)>(combos: seq<seq<Node>>, auctions: seq<Auction>, l: Learner<Node, Auction>)
    requires l.nodes == Fresh(combos) && l.auctions == Fresh(auctions) && l.last == None
    requires l.clock.Elapsed? ==> l.clock.t >= 1
    ensures Consistent(l) && Balanced(l)
    ensures Explored(l.nodes, 0) && Explored(l.auctions, 0)
    ensures Plays(l.nodes) == 0 && Earned(l.nodes) == 0.0
  {
    FreshTotals(combos);
    FreshTotals(auctions);
  }

  /** `play_arm`: choose the first-maximum arm of each table independently,
      remember the pair and count one play of each. */
  function Play<Node(==, !new), Auction(==, !new)>(l: Learner<Node, Auction>)
    : (r: Result<(Learner<Node, Auction>, (seq<Node>, Auction)), Error>)
    requires Consistent(l)
    ensures r.Failure? <==> |l.nodes.arms| == 0 || |l.auctions.arms| == 0
    ensures r.Success? ==>
      var (l', (c, a)) := r.value;
      && c in l.nodes.stats && FirstMaximum(l.nodes, IndexOf(l.nodes, c))
      && a in l.auctions.stats && FirstMaximum(l.auctions, IndexOf(l.auctions, a))
      && l'.nodes == Bump(l.nodes, c)
      && l'.auctions == Bump(l.auctions, a)
      && l'.clock == l.clock
      && l'.last == Some((c, a))
      && Consistent(l')
      && (Balanced(l) ==> Balanced(l'))
  {
    if |l.nodes.arms| == 0 || |l.auctions.arms| == 0 then Failure(NoArms)
    else
      var c, a := l.nodes.arms[Best(l.nodes)], l.auctions.arms[Best(l.auctions)];
      var l' := Learner(Bump(l.nodes, c), Bump(l.auctions, a), l.clock, Some((c, a)));
      IndexOfAt(l.nodes, Best(l.nodes));
      IndexOfAt(l.auctions, Best(l.auctions));
      PlayKeepsInvariants(l, c, a);
      Success((l', (c, a)))
  }

  /** Counting one play of a pair of arms keeps the learner consistent and balanced. */
  lemma PlayKeepsInvariants<Node(!new), Auction(!new)>(l: Learner<Node, Auction>, c: seq<Node>, a: Auction)
    requires Consistent(l) && c in l.nodes.stats && a in l.auctions.stats
    ensures Consistent(Learner(Bump(l.nodes, c), Bump(l.auctions, a), l.clock, Some((c, a))))
    ensures Balanced(l) ==> Balanced(Learner(Bump(l.nodes, c), Bump(l.auctions, a), l.clock, Some((c, a))))
  {
  }

  /** `receive_reward`: add `reward` to the last pair's reward totals and
      recompute those two scores from `now` (the horizon or the elapsed time);
      without a horizon the elapsed time then advances by one. Indexing a
      `last_played_arm` of `None` raises before anything changes; a horizon
      `T <= 0` makes `math.log` raise. */
  function Receive<Node(==, !new), Auction(==, !new)>(l: Learner<Node, Auction>, reward: real, ucb: Formula)
    : (r: Result<(Learner<Node, Auction>, (seq<Node>, Auction), real), Error>)
    requires Consistent(l)
    ensures r.Failure? <==> l.last.None? || !LogDefined(l.clock)
    ensures l.last.None? ==> r == Failure(NothingPlayed)
    ensures l.last.Some? && !LogDefined(l.clock) ==> r == Failure(LogOfNonPositive)
    ensures r.Success? ==>
      var (l', (c, a), echoed) := r.value;
      && (c, a) == l.last.value && echoed == reward
      && l'.nodes == Credit(l.nodes, c, reward, Now(l.clock), ucb)
      && l'.auctions == Credit(l.auctions, a, reward, Now(l.clock), ucb)
      && l'.clock == Tick(l.clock)
      && l'.last == l.last
      && Consistent(l')
      && (Balanced(l) ==> Balanced(l'))
  {
    match l.last
    case None => Failure(NothingPlayed)
    case Some((c, a)) =>
      if !LogDefined(l.clock) then Failure(LogOfNonPositive)
      else
        var now := Now(l.clock);
        var l' := Learner(Credit(l.nodes, c, reward, now, ucb), Credit(l.auctions, a, reward, now, ucb),
                          Tick(l.clock), l.last);
        CreditKeepsInvariants(l, reward, now, ucb, l');
        Success((l', (c, a), reward))
  }

  /** Crediting the last pair played and ticking the clock keeps the learner
      consistent, and keeps both sides' totals equal. */
  lemma CreditKeepsInvariants<Node(!new), Auction(!new)>(l: Learner<Node, Auction>, reward: real, now: int, ucb: Formula,
                                                         l': Learner<Node, Auction>)
    requires Consistent(l) && l.last.Some?
    requires l' == Learner(Credit(l.nodes, l.last.value.0, reward, now, ucb), Credit(l.auctions, l.last.value.1, reward, now, ucb),
                           Tick(l.clock), l.last)
    ensures Consistent(l') && (Balanced(l) ==> Balanced(l'))
  {
  }

  /** A call on the learner. */
  datatype Event = PlayArm | Reward(amount: real)

  /** The learner after one call. */
  function Apply<Node(==, !new), Auction(==, !new)>(l: Learner<Node, Auction>, e: Event, ucb: Formula)
    : (r: Result<Learner<Node, Auction>, Error>)
    requires Consistent(l)
    ensures r.Success? ==>
      && Consistent(r.value)
      && (Balanced(l) ==> Balanced(r.value))
      && Plays(r.value.nodes) == Plays(l.nodes) + (if e.PlayArm? then 1 else 0)
      && Earned(r.value.nodes) == Earned(l.nodes) + (if e.Reward? then e.amount else 0.0)
      && r.value.clock == (if e.Reward? then Tick(l.clock) else l.clock)
  {
    match e
    case PlayArm =>
      (match Play(l)
       case Failure(err) => Failure(err)
       case Success((l', _)) => Success(l'))
    case Reward(x) =>
      (match Receive(l, x, ucb)
       case Failure(err) => Failure(err)
       case Success((l', _, _)) => Success(l'))
  }

  /** The learner after a sequence of calls; the first call that raises stops it. */
  function Run<Node(==, !new), Auction(==, !new)>(l: Learner<Node, Auction>, events: seq<Event>, ucb: Formula)
    : (r: Result<Learner<Node, Auction>, Error>)
    requires Consistent(l)
    ensures r.Success? ==> Consistent(r.value)
    decreases |events|
  {
    if |events| == 0 then Success(l)
    else
      match Apply(l, events[0], ucb)
      case Failure(err) => Failure(err)
      case Success(l') => Run(l', events[1..], ucb)
  }

  /** A successful run is a successful first call followed by a successful run of the rest. */
  lemma RunStep<Node(!new), Auction(!new)>(l: Learner<Node, Auction>, events: seq<Event>, ucb: Formula)
    requires Consistent(l) && |events| > 0 && Run(l, events, ucb).Success?
    ensures Apply(l, events[0], ucb).Success?
    ensures Run(l, events, ucb) == Run(Apply(l, events[0], ucb).value, events[1..], ucb)
  {
  }

  /** Number of `play_arm` calls in `events`. */
  function PlayCalls(events: seq<Event>): nat {
    if |events| == 0 then 0 else (if events[0].PlayArm? then 1 else 0) + PlayCalls(events[1..])
  }

  /** Number of `receive_reward` calls in `events`. */
  function RewardCalls(events: seq<Event>): nat {
    if |events| == 0 then 0 else (if events[0].Reward? then 1 else 0) + RewardCalls(events[1..])
  }

  /** Sum of the rewards passed in `events`. */
  function RewardTotal(events: seq<Event>): real {
    if |events| == 0 then 0.0
    else (if events[0].Reward? then events[0].amount else 0.0) + RewardTotal(events[1..])
  }

  /** Over any run, the two sides stay balanced and each play adds one to both play totals. */
  lemma {:induction false} RunPlays<Node(!new), Auction(!new)>(l: Learner<Node, Auction>, events: seq<Event>, ucb: Formula)
    requires Consistent(l) && Balanced(l)
    requires Run(l, events, ucb).Success?
    ensures Balanced(Run(l, events, ucb).value)
    ensures Plays(Run(l, events, ucb).value.nodes) == Plays(l.nodes) + PlayCalls(events)
    decreases |events|
  {
    if |events| > 0 {
      RunStep(l, events, ucb);
      RunPlays(Apply(l, events[0], ucb).value, events[1..], ucb);
    }
  }

  /** Over any run, each reward adds its amount to the reward totals. */
  lemma {:induction false} RunEarned<Node(!new), Auction(!new)>(l: Learner<Node, Auction>, events: seq<Event>, ucb: Formula)
    requires Consistent(l)
    requires Run(l, events, ucb).Success?
    ensures Earned(Run(l, events, ucb).value.nodes) == Earned(l.nodes) + RewardTotal(events)
    decreases |events|
  {
    if |events| > 0 {
      RunStep(l, events, ucb);
      RunEarned(Apply(l, events[0], ucb).value, events[1..], ucb);
    }
  }

  /** Over any run, each reward ticks the elapsed-time counter; a horizon never moves. */
  lemma {:induction false} RunClock<Node(!new), Auction(!new)>(l: Learner<Node, Auction>, events: seq<Event>, ucb: Formula)
    requires Consistent(l)
    requires Run(l, events, ucb).Success?
    ensures Run(l, events, ucb).value.clock == TickBy(l.clock, RewardCalls(events))
    decreases |events|
  {
    if |events| > 0 {
      RunStep(l, events, ucb);
      var l' := Apply(l, events[0], ucb).value;
      RunClock(l', events[1..], ucb);
      ClockStep(l.clock, l'.clock, events[0].Reward?, RewardCalls(events[1..]), Run(l', events[1..], ucb).value.clock);
    }
  }

  /** A call that ticks the clock when it is a reward, followed by `n` more
      rewards, moves an elapsed-time counter by their sum. */
  lemma ClockStep(c: Clock, c': Clock, reward: bool, n: nat, final: Clock)
    requires c' == if reward then Tick(c) else c
    requires final == TickBy(c', n)
    ensures final == TickBy(c, (if reward then 1 else 0) + n)
  {
  }

  /** From a new learner, the node play counts and the auction play counts
      both sum to the number of plays, and both reward totals to the rewards
      received; without a horizon, `t` is 1 plus the number of rewards. */
  lemma CountsFromInit<Node(!new), Auction(!new)>(numSeeds: int, nodes: seq<Node>, auctions: seq<Auction>,
                                                  horizon: Option<int>, events: seq<Event>, ucb: Formula)
    requires Init(numSeeds, nodes, auctions, horizon).Success?
    requires Run(Init(numSeeds, nodes, auctions, horizon).value, events, ucb).Success?
    ensures var l := Run(Init(numSeeds, nodes, auctions, horizon).value, events, ucb).value;
      && Plays(l.nodes) == Plays(l.auctions) == PlayCalls(events)
      && Earned(l.nodes) == Earned(l.auctions) == RewardTotal(events)
      && (horizon.None? ==> l.clock == Elapsed(1 + RewardCalls(events)))
      && (horizon.Some? ==> l.clock == Horizon(horizon.value))
  {
    var l0 := Init(numSeeds, nodes, auctions, horizon).value;
    CountsFrom(l0, horizon, events, ucb);
  }

  /** `CountsFromInit` for any balanced learner with nothing played or
      received yet whose clock is the one a new learner starts with. */
  lemma CountsFrom<Node(!new), Auction(!new)>(l0: Learner<Node, Auction>, horizon: Option<int>, events: seq<Event>, ucb: Formula)
    requires Consistent(l0) && Balanced(l0) && Plays(l0.nodes) == 0 && Earned(l0.nodes) == 0.0
    requires l0.clock == if horizon.None? then Elapsed(1) else Horizon(horizon.value)
    requires Run(l0, events, ucb).Success?
    ensures var l := Run(l0, events, ucb).value;
      && Plays(l.nodes) == Plays(l.auctions) == PlayCalls(events)
      && Earned(l.nodes) == Earned(l.auctions) == RewardTotal(events)
      && (horizon.None? ==> l.clock == Elapsed(1 + RewardCalls(events)))
      && (horizon.Some? ==> l.clock == Horizon(horizon.value))
  {
    RunPlays(l0, events, ucb);
    RunEarned(l0, events, ucb);
    RunClock(l0, events, ucb);
  }

  /** A reward before the first play raises. */
  lemma RewardBeforePlayFails<Node(!new), Auction(!new)>(numSeeds: int, nodes: seq<Node>, auctions: seq<Auction>,
                                                         horizon: Option<int>, events: seq<Event>, ucb: Formula)
    requires Init(numSeeds, nodes, auctions, horizon).Success?
    requires |events| > 0 && events[0].Reward?
    ensures Run(Init(numSeeds, nodes, auctions, horizon).value, events, ucb) == Failure(NothingPlayed)
  {
  }

  /** With a horizon `T <= 0`, the first reward after a play raises in `math.log`. */
  lemma NonPositiveHorizonRaises<Node(!new), Auction(!new)>(numSeeds: int, nodes: seq<Node>, auctions: seq<Auction>,
                                                            T: int, reward: real, ucb: Formula)
    requires Init(numSeeds, nodes, auctions, Some(T)).Success? && T <= 0
    requires |Init(numSeeds, nodes, auctions, Some(T)).value.nodes.arms| > 0 && |auctions| > 0
    ensures Run(Init(numSeeds, nodes, auctions, Some(T)).value, [PlayArm, Reward(reward)], ucb) == Failure(LogOfNonPositive)
  {
    var l := Init(numSeeds, nodes, auctions, Some(T)).value;
    assert l.clock == Horizon(T);
    assert |l.auctions.arms| > 0 by {
      assert auctions[0] in auctions && l.auctions.arms == Dedup(auctions);
      assert auctions[0] in l.auctions.arms;
    }
    PlayThenRewardRaises(l, reward, ucb);
  }

  /** From any learner whose clock `math.log` rejects, a play followed by a reward raises. */
  lemma PlayThenRewardRaises<Node(!new), Auction(!new)>(l: Learner<Node, Auction>, reward: real, ucb: Formula)
    requires Consistent(l) && !LogDefined(l.clock) && |l.nodes.arms| > 0 && |l.auctions.arms| > 0
    ensures Run(l, [PlayArm, Reward(reward)], ucb) == Failure(LogOfNonPositive)
  {
    var l1 := Play(l).value.0;
    assert Apply(l, PlayArm, ucb) == Success(l1);
    var events := [PlayArm, Reward(reward)];
    assert events[1..] == [Reward(reward)];
    RunFirstSucceeds(l, events, ucb);
    assert Receive(l1, reward, ucb) == Failure(LogOfNonPositive);
    ApplyRewardFails(l1, reward, ucb);
    RunFirstFails(l1, [Reward(reward)], ucb);
  }

  /** A reward that `receive_reward` rejects stops the call with the same error. */
  lemma ApplyRewardFails<Node(!new), Auction(!new)>(l: Learner<Node, Auction>, x: real, ucb: Formula)
    requires Consistent(l) && Receive(l, x, ucb).Failure?
    ensures Apply(l, Reward(x), ucb) == Failure(Receive(l, x, ucb).error)
  {
  }

  /** A run whose first call raises stops there with that error. */
  lemma RunFirstFails<Node(!new), Auction(!new)>(l: Learner<Node, Auction>, events: seq<Event>, ucb: Formula)
    requires Consistent(l) && |events| > 0 && Apply(l, events[0], ucb).Failure?
    ensures Run(l, events, ucb) == Failure(Apply(l, events[0], ucb).error)
  {
  }

  /** A run whose first call succeeds continues from the learner it leaves. */
  lemma RunFirstSucceeds<Node(!new), Auction(!new)>(l: Learner<Node, Auction>, events: seq<Event>, ucb: Formula)
    requires Consistent(l) && |events| > 0 && Apply(l, events[0], ucb).Success?
    ensures Run(l, events, ucb) == Run(Apply(l, events[0], ucb).value, events[1..], ucb)
  {
  }

  /** `play_arm` followed by `receive_reward(reward)`; yields the pair played. */
  function Round<Node(==, !new), Auction(==, !new)>(l: Learner<Node, Auction>, reward: real, ucb: Formula)
    : (r: Result<(Learner<Node, Auction>, (seq<Node>, Auction)), Error>)
    requires Consistent(l)
    ensures r.Failure? <==> |l.nodes.arms| == 0 || |l.auctions.arms| == 0 || !LogDefined(l.clock)
    ensures r.Success? ==> Consistent(r.value.0) && r.value.0.clock == Tick(l.clock)
    ensures r.Success? ==> r.value.0.nodes.arms == l.nodes.arms && r.value.0.auctions.arms == l.auctions.arms
  {
    var played := Play(l);
    if played.Failure? then Failure(played.error)
    else
      var received := Receive(played.value.0, reward, ucb);
      if received.Failure? then Failure(received.error)
      else Success((received.value.0, played.value.1))
  }

  /** Alternating `play_arm` and `receive_reward(rewards[j])`; yields the pairs played. */
  function Rounds<Node(==, !new), Auction(==, !new)>(l: Learner<Node, Auction>, rewards: seq<real>, ucb: Formula)
    : (r: Result<(Learner<Node, Auction>, seq<(seq<Node>, Auction)>), Error>)
    requires Consistent(l)
    ensures r.Success? ==> Consistent(r.value.0) && |r.value.1| == |rewards|
    decreases |rewards|
  {
    if |rewards| == 0 then Success((l, []))
    else
      var first := Round(l, rewards[0], ucb);
      if first.Failure? then Failure(first.error)
      else
        var rest := Rounds(first.value.0, rewards[1..], ucb);
        if rest.Failure? then Failure(rest.error)
        else
          assert |rest.value.1| == |rewards| - 1;
          var history := [first.value.1] + rest.value.1;
          Success((rest.value.0, history))
  }

  /** From `l`, the rounds all succeed, their node arms follow the insertion
      order from position `k`, and the explored prefix grows by one per round. */
  predicate RoundRobinFrom<Node(==, !new), Auction(==, !new)>(l: Learner<Node, Auction>, k: nat, rewards: seq<real>, ucb: Formula)
    requires Consistent(l)
  {
    && Rounds(l, rewards, ucb).Success?
    && FollowsArms(Rounds(l, rewards, ucb).value.1, l.nodes.arms, k)
    && Explored(Rounds(l, rewards, ucb).value.0.nodes, k + |rewards|)
  }

  /** While untried node arms remain (and `math.log` accepts the clock),
      alternating play and reward takes them one after the other in insertion order. */
  lemma {:induction false} NodeRoundRobin<Node(!new), Auction(!new)>(l: Learner<Node, Auction>, k: nat, rewards: seq<real>, ucb: Formula)
    requires Consistent(l) && Explored(l.nodes, k) && |l.auctions.arms| > 0 && LogDefined(l.clock)
    requires k + |rewards| <= |l.nodes.arms|
    ensures RoundRobinFrom(l, k, rewards, ucb)
    decreases |rewards|, 1
  {
    if |rewards| == 0 {
      NoRounds(l, k, ucb);
    } else {
      NodeRoundRobinStep(l, k, rewards, ucb);
    }
  }

  /** The base case of `NodeRoundRobin`: no rounds leave the learner as it is. */
  lemma NoRounds<Node(!new), Auction(!new)>(l: Learner<Node, Auction>, k: nat, ucb: Formula)
    requires Consistent(l) && Explored(l.nodes, k)
    ensures RoundRobinFrom(l, k, [], ucb)
  {
  }

  /** The inductive step of `NodeRoundRobin`: the first round takes arm `k`,
      and the remaining rounds continue from `k + 1`. */
  lemma {:induction false} NodeRoundRobinStep<Node(!new), Auction(!new)>(l: Learner<Node, Auction>, k: nat, rewards: seq<real>, ucb: Formula)
    requires Consistent(l) && Explored(l.nodes, k) && |l.auctions.arms| > 0 && LogDefined(l.clock)
    requires 0 < |rewards| && k + |rewards| <= |l.nodes.arms|
    ensures RoundRobinFrom(l, k, rewards, ucb)
    decreases |rewards|, 0
  {
    NodeRoundStep(l, k, rewards[0], ucb);
    var l1, p := Round(l, rewards[0], ucb).value.0, Round(l, rewards[0], ucb).value.1;
    assert l1.nodes.arms == l.nodes.arms && l1.auctions.arms == l.auctions.arms;
    assert LogDefined(l1.clock) by {
      assert l1.clock == Tick(l.clock);
    }
    NodeRoundRobin(l1, k + 1, rewards[1..], ucb);
    var rest := Rounds(l1, rewards[1..], ucb).value;
    RoundsStep(l, rewards, ucb);
    HistoryShift(p, rest.1, l.nodes.arms, k);
  }

  /** `Rounds` is one `Round` followed by the remaining rounds. */
  lemma RoundsStep<Node(!new), Auction(!new)>(l: Learner<Node, Auction>, rewards: seq<real>, ucb: Formula)
    requires Consistent(l) && |rewards| > 0 && Round(l, rewards[0], ucb).Success?
    requires Rounds(Round(l, rewards[0], ucb).value.0, rewards[1..], ucb).Success?
    ensures var first := Round(l, rewards[0], ucb).value;
      var rest := Rounds(first.0, rewards[1..], ucb).value;
      Rounds(l, rewards, ucb) == Success((rest.0, [first.1] + rest.1))
  {
  }

  /** The `j`-th pair played holds the node arm at position `k + j`. */
  predicate FollowsArms<Node(==), Auction>(history: seq<(seq<Node>, Auction)>, arms: seq<seq<Node>>, k: nat) {
    && k + |history| <= |arms|
    && forall j :: 0 <= j < |history| ==> history[j].0 == arms[k + j]
  }

  /** Putting the pair of position `k` in front of a history that follows the arms from `k + 1`. */
  lemma HistoryShift<Node, Auction>(p: (seq<Node>, Auction), rest: seq<(seq<Node>, Auction)>, arms: seq<seq<Node>>, k: nat)
    requires k < |arms| && p.0 == arms[k] && FollowsArms(rest, arms, k + 1)
    ensures FollowsArms([p] + rest, arms, k)
  {
    forall j | 0 <= j < |rest| + 1
      ensures ([p] + rest)[j].0 == arms[k + j]
    {
      if j > 0 {
        assert ([p] + rest)[j] == rest[j - 1];
      }
    }
  }

  /** One round of `NodeRoundRobin`: the first untried node arm is played and rewarded. */
  lemma NodeRoundStep<Node(!new), Auction(!new)>(l: Learner<Node, Auction>, k: nat, reward: real, ucb: Formula)
    requires Consistent(l) && Explored(l.nodes, k) && |l.auctions.arms| > 0 && LogDefined(l.clock)
    requires k < |l.nodes.arms|
    ensures Round(l, reward, ucb).Success?
    ensures Round(l, reward, ucb).value.1.0 == l.nodes.arms[k]
    ensures Explored(Round(l, reward, ucb).value.0.nodes, k + 1)
  {
    UntriedChosenFirst(l.nodes, k);
    var l1, c := Play(l).value.0, Play(l).value.1.0;
    FirstMaximumUnique(l.nodes, k, IndexOf(l.nodes, c));
    ExploreNext(l.nodes, k, reward, Now(l1.clock), ucb);
  }

  /** A new learner without a horizon, or with a positive one, plays every
      node arm once, in the order `itertools.combinations` lists them, before
      playing any node arm twice. */
  lemma EachNodeArmOnceFirst<Node(!new), Auction(!new)>(numSeeds: int, nodes: seq<Node>, auctions: seq<Auction>,
                                                        horizon: Option<int>, rewards: seq<real>, ucb: Formula)
    requires Init(numSeeds, nodes, auctions, horizon).Success?
    requires |auctions| > 0 && (horizon.Some? ==> horizon.value > 0)
    requires |rewards| <= |Init(numSeeds, nodes, auctions, horizon).value.nodes.arms|
    ensures RoundRobinFrom(Init(numSeeds, nodes, auctions, horizon).value, 0, rewards, ucb)
    ensures Distinct(nodes) ==>
      forall j :: 0 <= j < |rewards| ==>
        Rounds(Init(numSeeds, nodes, auctions, horizon).value, rewards, ucb).value.1[j].0
          == Combinations(nodes, numSeeds)[j]
  {
    var l := Init(numSeeds, nodes, auctions, horizon).value;
    assert auctions[0] in l.auctions.stats;
    NodeRoundRobin(l, 0, rewards, ucb);
  }
}
