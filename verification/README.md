# Bandit seeding learner, degree histogram and BigCLAM helpers

A Dafny model of three pieces of a Python network-analysis project:

- `UCB_Learner` (multi_armed_bandit.py): a UCB1 learner over two arm spaces.
  The node arms are the `num_seeds`-element combinations of the nodes; the
  auction arms are the auctions. `play_arm` picks the highest-scoring arm of
  each space. `receive_reward` credits the last pair played and recomputes
  those two scores only.
- `Analyzer.get_degree_distribution` (analyze.py): the degree sequence sorted
  from largest to smallest, and the degree → frequency dictionary read off it.
- The integer parts of the BigCLAM helpers (analyze_network/BigCLAM.py):
  - the degree distance between two graphs;
  - the per-node affiliation lists;
  - their inversion into communities;
  - the strong-tie counts of `compute_p`.

Modules:

| file | module | contents |
|---|---|---|
| results.dfy | `Results` | `Option` and `Result` |
| seqs.dfy | `Seqs` | distinctness, sortedness, first-occurrence deduplication (the key order of a dict filled from a list), sums |
| itertools.dfy | `Itertools` | `itertools.combinations` and its characterisation as the subsequences of a given length |
| arm_table.dfy | `ArmTable` | one side of the learner: the arms in dict order, with each arm's play count, reward total and score; `max(d, key=d.get)` |
| ucb_learner.dfy | `UcbLearner` | the learner as an immutable value, with `Init`, `Play` and `Receive` as transitions |
| degree_histogram.dfy | `DegreeHistogram` | the degree distribution |
| bigclam.dfy | `BigClam` | degree distance, affiliation inversion, strong ties |

Modelling choices:

- **Scores.** A score is `Inf` or `Finite(x)`. `Above` is Python's float `>` on such values, so `inf > inf` is false. The finite formula `rew/n + sqrt(2*log(t)/n)` is a parameter `ucb`. Its play-count argument has type `Pos` (at least 1), because the source divides by it.
- **Clock.** The learner's clock is `Horizon(T)` when `T` is given. Otherwise it is `Elapsed(t)`, starting at 1 and advanced by each reward.
- **Raising calls.** A call that raises in Python returns `Failure(...)` or `None`.
- **Dict order.** Python dicts keep insertion order, and `max` returns the first key with a maximal value. So each table keeps its arms as a sequence in insertion order, beside a map.
- **Graphs.** A graph is given by its degree sequence (for the histogram and the distance). For the strong ties it is given by adjacency lists `adj`, where `adj[u]` lists the neighbours of node `u` and the nodes are `0 .. |adj|-1`.
- **Affiliation threshold.** The test `F[u][i] > mean` is a predicate parameter `above(u, i)`.

## Model

| member | source | states |
|---|---|---|
| ArmTable.Fresh | multi_armed_bandit.py:17-23 | a dict comprehension over the arm list: its keys are exactly the listed arms, each once, in the order of their first occurrences in the list (so a list without repeats keeps its order); every entry has 0 plays, 0 reward and score +inf |
| ArmTable.Best | multi_armed_bandit.py:25-26 | `max(d, key=d.get)` picks a position whose score no arm exceeds, with every earlier arm scoring strictly less (the first maximum) |
| ArmTable.FirstMaximumUnique | multi_armed_bandit.py:26 | the first maximum is unique, so the choice is determined by the scores alone |
| ArmTable.FreshTotals | multi_armed_bandit.py:17-20 | a new table has no plays and no reward |
| ArmTable.Bump | multi_armed_bandit.py:32-33 | one more play of the chosen arm, nothing else changes; the total play count rises by one |
| ArmTable.Credit | multi_armed_bandit.py:38-46 | the reward is added to the arm's total, its score becomes the finite formula of the new total, its play count and the current time; other arms unchanged; the total reward rises by the reward |
| ArmTable.TotalsAfterUpdate | multi_armed_bandit.py:32-39 | replacing one arm's entry changes the table totals by exactly that entry's difference |
| ArmTable.UntriedChosenFirst | multi_armed_bandit.py:22-26 | when the arms before position `k` carry finite scores and the rest are untried, `max` picks position `k` (+inf beats every finite score, and ties go to the first) |
| ArmTable.ExploreNext | multi_armed_bandit.py:28-46 | playing and then rewarding the first untried arm leaves one more arm explored |
| Itertools.Combinations | multi_armed_bandit.py:8 | `itertools.combinations` lists Binomial(n, k) sequences, each of length `k` |
| Itertools.CombinationsAreSubsequences | multi_armed_bandit.py:8 | a sequence is listed exactly when it is a `k`-element subsequence of the nodes |
| Itertools.CombinationsOfDistinct | multi_armed_bandit.py:8 | over distinct nodes, no combination is listed twice and no combination repeats a node |
| UcbLearner.Init | multi_armed_bandit.py:6-23 | raises exactly for a negative seed count. Otherwise: the learner is consistent and balanced, nothing is played, nothing is remembered, and the clock starts at the horizon or at t = 1. The node arms are exactly the `num_seeds`-element subsequences of the nodes, the auction arms exactly the auctions, and both key lists are the deduplicated lists (first occurrence kept), which over distinct inputs are the `combinations` order and the list order |
| UcbLearner.NodeArmSpace | multi_armed_bandit.py:8-17 | the node-arm keys are the `k`-subsequences, in `combinations` order over distinct nodes |
| UcbLearner.Play | multi_armed_bandit.py:28-34 | raises exactly when either arm space is empty. Otherwise it picks the first maximum of each table, counts one play of each arm, remembers the pair, leaves the clock alone and keeps the invariants |
| UcbLearner.Receive | multi_armed_bandit.py:36-49 | raises exactly when nothing was played (`NothingPlayed`) or the horizon is `T <= 0` (`math.log` raises, `LogOfNonPositive`). Otherwise it credits the reward to both arms of the last pair, rescores both at the current time, advances `t` only without a horizon, returns the pair and the reward, and keeps the invariants |
| UcbLearner.Apply | multi_armed_bandit.py:28-49 | one call: plays add one to the play total, rewards add their amount to the reward total and tick the clock |
| UcbLearner.RunPlays | multi_armed_bandit.py:32-33 | over any run the two sides stay balanced, and the play total grows by the number of `play_arm` calls |
| UcbLearner.RunEarned | multi_armed_bandit.py:38-39 | over any run the reward total grows by the sum of the rewards passed |
| UcbLearner.RunClock | multi_armed_bandit.py:41-47 | over any run the horizon never moves, and `t` grows by the number of rewards |
| UcbLearner.CountsFromInit | multi_armed_bandit.py:6-47 | from a new learner, both play totals equal the number of plays, both reward totals the sum of the rewards, and `t` is 1 plus the number of rewards |
| UcbLearner.RewardBeforePlayFails | multi_armed_bandit.py:15-38 | `receive_reward` before any `play_arm` raises |
| UcbLearner.PlayThenRewardRaises | multi_armed_bandit.py:28-42 | from a learner whose horizon is `T <= 0`, `play_arm` then `receive_reward` raises in `math.log` |
| UcbLearner.NonPositiveHorizonRaises | multi_armed_bandit.py:6-42 | a new learner with a horizon `T <= 0` and non-empty arm spaces raises at the first reward after a play |
| UcbLearner.Round | multi_armed_bandit.py:28-49 | a play followed by a reward raises exactly when an arm space is empty or the horizon is `T <= 0`; otherwise it keeps the learner consistent and the arm lists unchanged, and ticks the clock once |
| UcbLearner.NodeRoundRobin | multi_armed_bandit.py:22-47 | while untried node arms remain and the horizon (if any) is positive, each round plays the next one in dict order and the explored prefix grows by one |
| UcbLearner.NodeRoundStep | multi_armed_bandit.py:26-46 | one round plays the first untried node arm and explores it |
| UcbLearner.EachNodeArmOnceFirst | multi_armed_bandit.py:6-47 | a new learner without a horizon or with a positive one plays every node arm once, in `combinations` order, before playing any node arm twice |
| DegreeHistogram.SortDescending | analyze.py:16-18 | `sorted(..., reverse=True)` is sorted from largest to smallest and is a permutation of its input |
| DegreeHistogram.SortedPermutationUnique | analyze.py:16-18 | a sequence sorted downwards is determined by its multiset, so any correct sort gives the same degree sequence |
| DegreeHistogram.Frequencies | analyze.py:20-25 | the dictionary's keys are the degrees in first-seen order, each key maps to its number of occurrences, and the counts add up to the number of nodes |
| DegreeHistogram.DegreeDistribution | analyze.py:15-29 | uses in-degrees for a directed network. The sequence is a sorted permutation of the degrees. `degrees` is strictly decreasing and holds exactly the degrees that occur. `frequencies[j]` is the number of nodes of degree `degrees[j]`, at least 1, and the frequencies sum to the node count |
| Seqs.Dedup | multi_armed_bandit.py:17-23 | the keys of a dict filled from a list: no repeats, the same members as the list, and a list without repeats is kept as is (the order for a list with repeats is `Seqs.DedupOrder`) |
| Seqs.DedupOrder | multi_armed_bandit.py:17-23 | the keys of a dict filled from a list come in the order of their first occurrences in the list |
| Seqs.DedupOfNonIncreasing | analyze.py:20-28 | the keys of a dict filled from a sequence sorted downwards are strictly decreasing, and the last key is the smallest value |
| BigClam.DegreeDistance | analyze_network/BigCLAM.py:112-115 | raises (`IndexError`) exactly when the first graph has more nodes than the second |
| BigClam.DistanceZero | analyze_network/BigCLAM.py:115 | the distance is 0 exactly when the second degree list starts with the first |
| BigClam.DistanceToItself | analyze_network/BigCLAM.py:115 | identical degree lists are at distance 0 |
| BigClam.DistanceSymmetric | analyze_network/BigCLAM.py:115 | for graphs with the same number of nodes the distance is symmetric |
| BigClam.DistanceIgnoresExtra | analyze_network/BigCLAM.py:115 | nodes of the second graph beyond the first graph's count do not matter |
| BigClam.DistanceTriangle | analyze_network/BigCLAM.py:115 | the triangle inequality for graphs of the same size |
| BigClam.Row | analyze_network/BigCLAM.py:69 | an affiliation list holds exactly the communities `i < m` above the threshold, in strictly increasing order |
| BigClam.Affiliations | analyze_network/BigCLAM.py:68-69 | one such list per node |
| BigClam.Join | analyze_network/BigCLAM.py:71-74 | adds the node at the end of the community's list, creating the key (at the end of the key order) on first use; other communities unchanged |
| BigClam.JoinAll | analyze_network/BigCLAM.py:70-74 | a node joins each community once per occurrence of it in the node's list: that many copies of the node are appended to the community's member list, and other communities are unchanged |
| BigClam.JoinAllWellFormed | analyze_network/BigCLAM.py:70-74 | joining a node's communities keeps every key listed once, each with a non-empty member list |
| BigClam.JoinAllIds | analyze_network/BigCLAM.py:70-74 | new community keys are appended in order of first appearance |
| BigClam.Invert | analyze_network/BigCLAM.py:67-74 | every community key is listed once and has at least one member |
| BigClam.InvertOrder | analyze_network/BigCLAM.py:67-74 | the community keys appear in order of first appearance over the affiliation lists |
| BigClam.InvertCounts | analyze_network/BigCLAM.py:67-74 | node `v` occurs in community `i` as often as `i` occurs in `v`'s affiliation list, and no other value occurs |
| BigClam.InvertSorted | analyze_network/BigCLAM.py:68-74 | every member list is sorted by node |
| BigClam.InvertKeys | analyze_network/BigCLAM.py:67-74 | a community is a key exactly when some node is affiliated with it, and then it has a member |
| BigClam.InvertMembership | analyze_network/BigCLAM.py:67-74 | with duplicate-free lists, `u` is in community `i` exactly when `i` is in `u`'s list, and member lists are strictly increasing |
| BigClam.CommunitiesOfAffiliations | analyze_network/BigCLAM.py:67-74 | end to end, `u` is in community `i` exactly when `u < n`, `i < m` and the score is above the threshold; member lists are strictly increasing |
| BigClam.CountIsPositions | analyze_network/BigCLAM.py:91-92 | the tally of affiliated neighbours is the number of neighbour positions whose node is affiliated |
| BigClam.Tally | analyze_network/BigCLAM.py:91-96 | for one community, the value (0 when absent) grows by the number of affiliated neighbours, the key exists exactly when it did or that number is positive, and other keys are untouched |
| BigClam.TiesOf | analyze_network/BigCLAM.py:90-96 | tallying a node's communities only raises values, never drops a key, adds keys only from the node's list, and leaves communities outside the list unchanged |
| BigClam.TiesOfTotal | analyze_network/BigCLAM.py:90-96 | a community's value is its count in the node's list times the number of affiliated neighbours |
| BigClam.TiesOfKeys | analyze_network/BigCLAM.py:90-96 | a community is a key exactly when it is in the list and some neighbour is affiliated with it |
| BigClam.NodeTies | analyze_network/BigCLAM.py:89-96 | for a node that does not raise, `i` is a key exactly when `i` is in the node's list and some neighbour is affiliated with `i`; its value is that number of neighbours, once per occurrence of `i` in the list |
| BigClam.StrongTies | analyze_network/BigCLAM.py:87-96 | raises exactly when some node with a non-empty list is not in the graph or has a neighbour with no affiliation list; otherwise there is one dictionary per node |
| BigClam.StrongTiesCounts | analyze_network/BigCLAM.py:87-96 | `i` is a key of `u`'s dictionary exactly when `i` is in `u`'s list and some neighbour of `u` is affiliated with `i`; its value is that number of neighbours, once per occurrence of `i` in the list |
| BigClam.StrongTiesOfDistinctRows | analyze_network/BigCLAM.py:87-96 | with duplicate-free lists, each value is exactly the number of neighbours affiliated with the community |

## Left out

- The UCB score arithmetic (`math.log`, `math.sqrt`, float division, multi_armed_bandit.py:42-46) is a parameter `ucb`. Float rounding and NaN are not modelled. The one domain error of that arithmetic that can occur (a horizon `T <= 0`, with `T` an integer) is modelled as `LogOfNonPositive`.
- UcbLearner.Receive: when `math.log` raises, the source has already added the reward to both reward totals (lines 38-39). The model returns the error without the partially updated learner, since a raised call hands back no state.
- UcbLearner.EachNodeArmOnceFirst: only the node side of the round-robin start is proved. The auction arms follow the same rule through the same `ArmTable` lemmas, but no auction-side lemma is stated.
- The code never clears `last_played_arm`, so a second `receive_reward` without a new play is accepted and credits the same pair again. `UcbLearner.Receive` does the same: it fails for a missing pair only before the first play.
- The plotting in `get_degree_distribution` (analyze.py:31-39) is I/O and is not modelled. The model returns the three lists instead of the plot.
- A graph's degrees are given in node order as a sequence. networkx's node iteration order is not modelled.
- BigCLAM gradient ascent and log-likelihood (analyze_network/BigCLAM.py:14-51) are not modelled: floating point and randomness.
- In `compute_c`, the random start, `mean` and `mean_length` (analyze_network/BigCLAM.py:60-65, 77-79) are not modelled either, for the same reason. The threshold `F[u][i] > mean` is the predicate `above`.
- In `compute_p`, the unused `num_strong_ties_per_node` (line 84) is not modelled, and neither are the float probabilities and their mean (lines 99-107).
- BigClam.StrongTies: each node's inner dictionary is a map, so its key order is not modelled. That order only affects the float mean, which is left out.
- The `__main__` parameter search of BigCLAM.py and the other files of the repository (community detection, overlapping Louvain, mock-ups and tests) are not part of this model.
