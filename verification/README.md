# Team balancing for five-a-side role games

This project models, in Dafny, the three team-balancing strategies of the
repository. Each one puts ten players, each rated in the five roles Top,
Jun, Mid, Adc and Sup, into two teams of five with one player per role. The
ratings are integers. The per-role version takes them from a 1-to-5 rating
form and the total-rating version's interface from 0-to-100 sliders; no
caller of the hill-climbing module is part of this model, and its ratings
are taken to be integers as well.

- `HillClimb` (`hill_climb.dfy`) models `KeamN/js/teamAlgorithm.js`.
  - A solution is a list of (player index, team, role) entries.
  - `computeCost` sums, over the roles, the rating gap between the two
    holders of that role.
  - `randomSolution` seeds team A with a shuffled player in a shuffled role.
    The other players, shuffled again, fill the nine remaining slots in
    their fixed order.
  - `optimize` adopts the first pair swap that lowers the cost and rescans.
  - `generateOptimalTeams` keeps the earliest cheapest restart and formats
    it into one role map per team.
- `TotalRating` (`total_rating.dfy`) models `KeamKxN/js/teamAlgorithm.js`.
  - Every 5-combination of the indices becomes team A.
  - Each split is scored by the gap between the two teams' summed ratings,
    and the splits are sorted by that gap.
  - One of the first `topN` splits is drawn.
  - Each team's roles are dealt from its own shuffle of the five roles.
- `RoleEnumerator` (`role_enumerator.dfy`) models the pure functions of
  `KeamN/js/script.js`.
  - The players are shuffled, and every 5-combination of them becomes team A.
  - Each side gets the role permutation with the least total deviation from
    the midpoint 3.
  - The split is scored by the summed per-role gap.
  - The result is drawn, weighted by `1/(diff+1)`, from the first five of a
    shuffled copy of the scored list.
- `Common` (`common.dfy`) and `Combinatorics` (`combinatorics.dfy`) hold what
  the three share:
  - roles, players, entries and slots;
  - the oracle draws and the Fisher-Yates shuffle;
  - `combinations`, `permutations`, the numeric sort, `slice` and the
    order-keeping filters.

Modelling decisions:

- **Randomness.** Every call site of `Math.random` is an explicit oracle.
  - A shuffle or an index pick takes a stream of naturals. Draw k is reduced
    modulo its bound, and an exhausted stream draws 0.
  - The weighted pick takes one real draw in [0, 1).
- **Failures.** Where the source would throw (a `TypeError` on `undefined`
  or `null`) or return `undefined`, the model returns `None`.
- **Positions for identity.** Players are JavaScript objects, and `includes`
  compares their identity. The model names each player by its position.

Facts about the code as written, proved here:

- `optimize` exchanges two whole entries, so every (player, team, role)
  record survives intact. On a valid solution no swap ever changes the cost
  (`HillClimb.SwapKeepsCost`), so `optimize` hands back its input unchanged
  (`HillClimb.OptimizeChangesNothing`). Each restart therefore yields exactly
  its random solution (`HillClimb.RunIsRandomSolution`), and the
  hill-climbing result is the earliest cheapest of the random solutions
  (`HillClimb.GenerateOptimalTeams`).
- In `KeamN/js/script.js` the solutions are sorted by difference and then
  shuffled before the pool is cut, so the sort does not limit which splits
  can reach the pool: any scored split can head it
  (`RoleEnumerator.AnySolutionCanBePooled`). How likely each one is depends
  on the engine's sort and is not modelled. The model keeps this behaviour.
- For fewer than ten players, or more, every strategy except the
  total-rating one fails (`HillClimb.GenerateOptimalTeams`,
  `RoleEnumerator.GenerateSomeIffTen`). Under the default or any positive
  `topN`, the total-rating strategy succeeds exactly from five players on,
  with a role of `None` for anyone past a team's fifth place
  (`TotalRating.PositiveTopNSucceeds`, `TotalRating.DefaultSucceeds`). A
  negative `topN` cuts that many splits from the end of the ranking, and
  when that leaves none the strategy fails (`TotalRating.Cut`).

## Model

| member | source | states |
|---|---|---|
| Common.Shuffle | KeamN/js/teamAlgorithm.js:11-18 | the shuffle returns a reordering of a copy of its input: same length, same multiset of elements |
| Common.ShuffleDown | KeamKxN/js/teamAlgorithm.js:29-36 | the Fisher-Yates loop from position i down keeps the length and the multiset of elements |
| Common.SwapIsPermutation | KeamN/js/teamAlgorithm.js:96-98 | exchanging two entries of a candidate leaves the multiset of entries unchanged |
| Common.ValidityIgnoresOrder | KeamN/js/teamAlgorithm.js:93-98 | any reordering of a valid solution (each player once, each slot once) is valid |
| Common.RangeFacts | KeamKxN/js/teamAlgorithm.js:63 | `players.map((_, i) => i)` lists distinct indices, exactly those below the player count |
| HillClimb.FindSlot | KeamN/js/teamAlgorithm.js:32-33 | `find` returns the first entry holding the slot; None means that no entry holds it |
| HillClimb.RoleGap | KeamN/js/teamAlgorithm.js:32-38 | a role's gap exists whenever every slot is filled by an existing player; when it exists, both team A and team B hold the role |
| HillClimb.CostOver | KeamN/js/teamAlgorithm.js:31-39 | the sum over roles exists whenever the solution is well formed; when it exists, every role's gap exists |
| HillClimb.ComputeCost | KeamN/js/teamAlgorithm.js:28-42 | the cost is a natural number; it exists for a well-formed solution, and whenever it exists every (team, role) slot is filled |
| HillClimb.RoleGapOfValid | KeamN/js/teamAlgorithm.js:32-38 | in a valid solution a role's gap is taken between the unique A and B holders of that role, wherever they sit in the list |
| HillClimb.ValidHasCost | KeamN/js/teamAlgorithm.js:28-42 | a valid solution over ten players always has a cost |
| HillClimb.CostZeroWhenRatingsEqual | KeamN/js/teamAlgorithm.js:28-42 | when all players have equal ratings in each role, the cost is 0 |
| HillClimb.SlotsFilledNeedTen | KeamN/js/teamAlgorithm.js:32-37 | a solution whose cost can be computed has at least ten entries |
| HillClimb.SwapKeepsWellformed | KeamN/js/teamAlgorithm.js:93-98 | a swapped candidate is still well formed |
| HillClimb.Scan | KeamN/js/teamAlgorithm.js:91-112 | the nested scan returns the first pair (i < j, in scan order) whose swap is strictly cheaper than the best cost; None means no pair from the resume point is cheaper |
| HillClimb.Optimize | KeamN/js/teamAlgorithm.js:84-116 | the result is a reordering of the input entries; the returned cost is the result's own cost and is at most the initial cost; no pair swap of the result is strictly cheaper (a local optimum) |
| HillClimb.OptimizeKeepsValid | KeamN/js/teamAlgorithm.js:84-116 | optimizing a valid solution yields a valid solution |
| HillClimb.OptimizeAtOptimum | KeamN/js/teamAlgorithm.js:88-113 | a local optimum comes back unchanged, with its own cost |
| HillClimb.OptimizeIdempotent | KeamN/js/teamAlgorithm.js:84-116 | optimizing the result of `optimize` again changes nothing |
| HillClimb.SwapKeepsRoleGap | KeamN/js/teamAlgorithm.js:93-100 | in a valid solution, exchanging two whole entries leaves every role's gap unchanged |
| HillClimb.SwapKeepsCost | KeamN/js/teamAlgorithm.js:93-102 | in a valid solution, every swapped candidate costs exactly the current cost, so none is adopted |
| HillClimb.OptimizeChangesNothing | KeamN/js/teamAlgorithm.js:84-116 | `optimize` returns a valid ten-player solution unchanged, together with its own cost |
| HillClimb.DropSlot | KeamN/js/teamAlgorithm.js:61-67 | the filtered slot list holds every slot except the seed's, each as often as before, and the seed's slot not at all; the kept slots stay in their original order |
| HillClimb.RemainingSlots | KeamN/js/teamAlgorithm.js:59-67 | `remainingSlots` holds every slot but the seed's (team A, seed role), in the fixed order: team A before team B, each in `ROLE_KEYS` order |
| HillClimb.RemainingSlotsFacts | KeamN/js/teamAlgorithm.js:59-67 | `remainingSlots` has nine distinct slots, not the seed's, in the fixed A-then-B, `ROLE_KEYS` order; together with the seed's they are exactly the ten slots |
| HillClimb.Place | KeamN/js/teamAlgorithm.js:71-78 | player i of the shuffled rest gets slot i: the player indices are the rest in order, and the slots are the first of the remaining ones |
| HillClimb.RandomSolution | KeamN/js/teamAlgorithm.js:45-81 | a result exists exactly for 1 to 10 players; it has one entry per player; each index occurs once; the first entry is team A in the first shuffled role; no slot repeats; for ten players the solution is valid |
| HillClimb.RandomSolutionFacts | KeamN/js/teamAlgorithm.js:52-78 | the seed plus nine placed players give each index once and distinct slots; with ten players, every slot is filled |
| HillClimb.FormatResult | KeamN/js/teamAlgorithm.js:139-153 | a team's map has a role exactly when some entry holds that (team, role) |
| HillClimb.FormatPlaces | KeamN/js/teamAlgorithm.js:143-150 | each entry that is last in its slot has its player written in its team's map under its role |
| HillClimb.FormatValid | KeamN/js/teamAlgorithm.js:139-153 | for a valid solution both maps cover all five roles, and each entry's player is what its team's map holds for its role |
| HillClimb.Restart | KeamN/js/teamAlgorithm.js:126-127 | a restart's solution reorders the entries of its random solution; the random solution has a cost, and the reported cost is the result's own `computeCost` and no more than the initial one |
| HillClimb.RestartFacts | KeamN/js/teamAlgorithm.js:126-127 | a restart succeeds exactly for ten players; it then yields a valid solution and that solution's cost |
| HillClimb.RestartFails | KeamN/js/teamAlgorithm.js:126-127 | with any player count other than ten, a restart fails |
| HillClimb.RunResult | KeamN/js/teamAlgorithm.js:126-127 | each restart over ten players yields a valid solution whose computed cost is the reported cost |
| HillClimb.RunIsRandomSolution | KeamN/js/teamAlgorithm.js:84-127 | with ten players each restart's solution is its random solution itself, at that solution's cost: `optimize` never moves it |
| HillClimb.BestIndex | KeamN/js/teamAlgorithm.js:123-132 | the kept index has the least cost, and every earlier index costs strictly more, since replacement happens only on strict improvement |
| HillClimb.BestIsWinner | KeamN/js/teamAlgorithm.js:123-132 | the index the loop keeps is the earliest cheapest restart |
| HillClimb.GenerateOptimalTeams | KeamN/js/teamAlgorithm.js:120-135 | a result exists exactly for ten players and at least one iteration; it is the formatted solution of the earliest cheapest restart |
| Combinatorics.ChoosePositive | KeamKxN/js/teamAlgorithm.js:40-41 | there is a k-subset of n elements exactly when k is at most n |
| Combinatorics.Combinations | KeamKxN/js/teamAlgorithm.js:39-46 | `combinations` returns C(\|arr\|, n) lists, each of length n and an order-keeping subsequence of `arr` |
| Combinatorics.CombinationsComplete | KeamN/js/script.js:66-75 | every order-keeping choice of n elements is enumerated |
| Combinatorics.CombinationsDistinct | KeamKxN/js/teamAlgorithm.js:39-46 | over elements without repeats, no combination is listed twice |
| Combinatorics.TenChooseFive | KeamKxN/js/teamAlgorithm.js:63 | 10 choose 5 is 252 |
| Combinatorics.Permutations | KeamN/js/script.js:78-83 | `permutations` returns \|arr\|! lists, each a reordering of `arr` |
| Combinatorics.PermutationsComplete | KeamN/js/script.js:78-83 | every reordering of `arr` is listed |
| Combinatorics.FivePermutationCount | KeamN/js/script.js:87 | the five roles have 120 orderings |
| Combinatorics.SortBy | KeamKxN/js/teamAlgorithm.js:72 | the numeric sort returns a reordering of its input, ascending by the key |
| Combinatorics.SliceEnd | KeamKxN/js/teamAlgorithm.js:75 | `slice(0, end)` keeps min(end, len) elements for a non-negative end; for a negative end it drops -end elements from the back |
| Combinatorics.Without | KeamKxN/js/teamAlgorithm.js:67 | the filter keeps exactly the elements not in `e`, in their original order |
| Combinatorics.KeepWithoutSplit | KeamKxN/js/teamAlgorithm.js:67 | the players a filter keeps and the ones it drops are together exactly the list |
| Combinatorics.KeepSubseq | KeamKxN/js/teamAlgorithm.js:67 | filtering the distinct indices by a subsequence of them gives that subsequence back |
| TotalRating.TotalRating | KeamKxN/js/teamAlgorithm.js:49-55 | the total equals the left-to-right `reduce` of the players' summed ratings, from any starting sum |
| TotalRating.TotalSplits | KeamKxN/js/teamAlgorithm.js:49-55 | the totals of the kept and the dropped players add up to the total of the whole list |
| TotalRating.Score | KeamKxN/js/teamAlgorithm.js:66-71 | team B is every index not on team A, and the two teams together hold each index once; the gap is \|2·total(A) − grand total\| |
| TotalRating.Splits | KeamKxN/js/teamAlgorithm.js:63-71 | there is one scored split per 5-combination, C(n, 5) in all, in enumeration order |
| TotalRating.Ranked | KeamKxN/js/teamAlgorithm.js:66-72 | `ranked` holds exactly the scored splits, ascending by gap |
| TotalRating.Cut | KeamKxN/js/teamAlgorithm.js:60-75 | the pick chooses among the first min(topN, number of ranked splits) splits, topN being `config.topN \|\| 5`; a negative topN drops that many from the end, down to none |
| TotalRating.AssignRoles | KeamKxN/js/teamAlgorithm.js:79-89 | with an ordering of the five roles, a team's first five players get pairwise distinct roles and any player past the fifth gets none |
| TotalRating.Deal | KeamKxN/js/teamAlgorithm.js:79-89 | team A's players are seated first, then team B's, and each team's roles come from an ordering of the five roles |
| TotalRating.GenerateOptimalTeams | KeamKxN/js/teamAlgorithm.js:59-92 | a result exists exactly when the cut is non-empty; it seats one of the first `topN` ranked splits |
| TotalRating.RankedIsScored | KeamKxN/js/teamAlgorithm.js:66-72 | every ranked split is the score of some five players |
| TotalRating.EverySplitRanked | KeamKxN/js/teamAlgorithm.js:63-72 | every choice of five players is ranked somewhere |
| TotalRating.TopIsOptimal | KeamKxN/js/teamAlgorithm.js:66-72 | the first ranked split has a gap no larger than any other choice of five |
| TotalRating.CutKeepsBest | KeamKxN/js/teamAlgorithm.js:75-76 | every split inside the cut is at least as balanced as every split outside it |
| TotalRating.RankedTeamsDistinct | KeamKxN/js/teamAlgorithm.js:63-72 | no two ranked splits put the same players on team A |
| TotalRating.RankedCount | KeamKxN/js/teamAlgorithm.js:63-72 | there are C(n, 5) ranked splits |
| TotalRating.TenPlayersRank252 | KeamKxN/js/teamAlgorithm.js:63 | ten players give 252 ranked splits |
| TotalRating.PositiveTopNSucceeds | KeamKxN/js/teamAlgorithm.js:60-76 | under any positive `topN`, the default included, a result exists exactly when there are at least five players |
| TotalRating.DefaultSucceeds | KeamKxN/js/teamAlgorithm.js:60-76 | under the default `topN`, a result exists exactly when there are at least five players |
| TotalRating.DealIsValid | KeamKxN/js/teamAlgorithm.js:79-91 | dealing a split of ten into two teams of five gives every player a role and fills each slot once with each player once |
| TotalRating.TenPlayersValid | KeamKxN/js/teamAlgorithm.js:59-92 | with ten players, every result is a valid solution |
| RoleEnumerator.SortShuffle | KeamN/js/script.js:61-63 | the random-comparator sort returns a reordering of a copy: same length, same multiset |
| RoleEnumerator.SortShuffleReachesAll | KeamN/js/script.js:61-63 | every ordering of the input is the outcome of some run of the shuffle |
| RoleEnumerator.FirstMin | KeamN/js/script.js:91-106 | the kept candidate has the least score, and every earlier candidate scores strictly more, since replacement happens only on a strictly smaller score |
| RoleEnumerator.ShuffledPerms | KeamN/js/script.js:87 | there are 120 candidates, each an ordering of the five roles |
| RoleEnumerator.ShuffledPermsComplete | KeamN/js/script.js:87 | every ordering of the roles is among the candidates |
| RoleEnumerator.DeviationZero | KeamN/js/script.js:95-99 | a team's deviation is zero exactly when every member is rated the midpoint 3 in the role the permutation gives them |
| RoleEnumerator.ChosenPerm | KeamN/js/script.js:87-106 | the kept candidate is an ordering of the five roles |
| RoleEnumerator.Lineup | KeamN/js/script.js:93-98 | the assignment's roles are exactly those the permutation gives the members |
| RoleEnumerator.LineupHolds | KeamN/js/script.js:96-97 | with distinct roles, member i sits in role perm[i] |
| RoleEnumerator.BestRoleAssignment | KeamN/js/script.js:86-109 | an assignment exists exactly for teams of at most five; larger teams score NaN and give null |
| RoleEnumerator.PickBestBeats | KeamN/js/script.js:102-105 | no candidate deviates less than the kept one |
| RoleEnumerator.ChosenPermOptimal | KeamN/js/script.js:86-109 | no ordering of the roles deviates less than the kept one |
| RoleEnumerator.LineupOfPermutation | KeamN/js/script.js:93-98 | a team of five laid out by an ordering of the roles fills every role, with member i in role p[i] |
| RoleEnumerator.BestRoleAssignmentFacts | KeamN/js/script.js:86-109 | for five players the assignment maps all five roles; each member holds exactly the role the kept permutation gives them; that permutation deviates least of all orderings |
| RoleEnumerator.LineupMissesRole | KeamN/js/script.js:93-98 | a team of fewer than five leaves some role empty |
| RoleEnumerator.AssignmentFull | KeamN/js/script.js:86-109 | the assignment fills every role exactly when the team has five players |
| RoleEnumerator.GapOver | KeamN/js/script.js:112-117 | the partial sum exists exactly when both teams hold every listed role |
| RoleEnumerator.RoleDifference | KeamN/js/script.js:112-117 | the difference is a natural number; it exists exactly when both teams hold every role |
| RoleEnumerator.RoleDifferenceSymmetric | KeamN/js/script.js:112-117 | swapping the two teams gives the same difference |
| RoleEnumerator.RoleDifferenceZero | KeamN/js/script.js:112-117 | with both teams complete, the difference is 0 exactly when the two holders of each role are rated equally in it |
| RoleEnumerator.Weight | KeamN/js/script.js:121 | every weight `1/(diff+1)` lies in (0, 1] |
| RoleEnumerator.WeightFavoursBalance | KeamN/js/script.js:121 | a smaller difference gets a strictly larger weight |
| RoleEnumerator.Prefix | KeamN/js/script.js:122 | the running weight is non-negative, and positive once any solution is counted |
| RoleEnumerator.PickFrom | KeamN/js/script.js:125-128 | the loop stops only at an index of the list |
| RoleEnumerator.PickFromSpec | KeamN/js/script.js:123-130 | the loop stops at the first index whose running weight reaches the drawn point; it falls through only when the point lies beyond all the weight |
| RoleEnumerator.PickWithin | KeamN/js/script.js:123-130 | a point inside the total weight always stops the loop, at the first index whose running weight reaches it |
| RoleEnumerator.DrawPoint | KeamN/js/script.js:123 | `Math.random() * totalWeight` lies within [0, total] |
| RoleEnumerator.WeightedRandomPick | KeamN/js/script.js:120-131 | a pick exists exactly for a non-empty list and is always one of its elements |
| RoleEnumerator.WeightedPickInSlice | KeamN/js/script.js:120-131 | the loop never reaches the fallback; the pick is the solution whose slice of the running weight holds the drawn point |
| RoleEnumerator.Complement | KeamN/js/script.js:140 | team B holds exactly the positions below the player count that team A does not |
| RoleEnumerator.ComplementSize | KeamN/js/script.js:140 | team B has as many players as are left over after team A |
| RoleEnumerator.Pair | KeamN/js/script.js:142-146 | the pushed entry exists exactly when both assignments fill every role; it keeps both assignments, and its diff is their role difference |
| RoleEnumerator.SplitEntry | KeamN/js/script.js:139-146 | the entry pushed for a split holds team A's and team B's best assignments and their role difference; it exists exactly when both assignments fill every role |
| RoleEnumerator.Collect | KeamN/js/script.js:136-147 | the loop completes exactly when no split throws; it then holds one entry per split, in split order |
| RoleEnumerator.Scored | KeamN/js/script.js:135-147 | when the loop completes, there are C(n, 5) solutions |
| RoleEnumerator.Pool | KeamN/js/script.js:149-151 | the pool holds min(5, \|solutions\|) of the solutions, each taken no more often than it occurs |
| RoleEnumerator.PickFromPool | KeamN/js/script.js:149-152 | the pick from the pool exists exactly for a non-empty list; it is one of the solutions, and it is the pool entry whose weight slice holds the drawn point |
| RoleEnumerator.GenerateOptimalTeams | KeamN/js/script.js:134-153 | any result is one of the scored solutions; it is the entry of the pool of min(5, number of solutions) shuffled solutions whose weight slice holds the drawn point |
| RoleEnumerator.SplitScores | KeamN/js/script.js:139-147 | a split of five scores exactly when there are ten players |
| RoleEnumerator.ScoredSome | KeamN/js/script.js:134-147 | the scoring loop completes exactly for ten players, or for fewer than five, when there is no split at all |
| RoleEnumerator.GenerateSomeIffTen | KeamN/js/script.js:134-153 | a result exists exactly for ten players |
| RoleEnumerator.TenPlayersScored | KeamN/js/script.js:136-147 | ten players give all 252 splits scored |
| RoleEnumerator.SplitOfTen | KeamN/js/script.js:138-147 | with ten players: team B is the other five; each side fills every role with its own members, member i in the kept permutation's role i; no ordering deviates less |
| RoleEnumerator.AnySolutionCanBePooled | KeamN/js/script.js:149-151 | every scored solution heads the pool for some run of the shuffle, however unbalanced it is |

## Left out

- The DOM, form, slider and rendering code and the JSON import/export of `KeamN/js/script.js`, and all of `KeamKxN/js/script.js`. These are presentation and browser I/O.
- `Math.random` itself. The draws are oracle parameters, and the distribution of the shuffles and picks is not modelled.
- `cloneSolution`. Values are immutable here, so a candidate is simply a new list.
- The unused `constraints` object of `KeamKxN/js/teamAlgorithm.js`, which is dead code.
- Ratings are taken as integers, the values of the rating form.
- `totalRating` sums `Object.values(ratings)`. The model sums exactly the five role ratings.
- HillClimb.GenerateOptimalTeams: a call with no `config` at all, which throws a `TypeError` at `config.iterations`, is not modelled. The parameter stands for a present `config`, and None means that it has no `iterations`.
- HillClimb.IterationCount: non-integer `iterations` values are not modelled. The parameter is an optional integer.
- TotalRating.TopN: non-integer and non-numeric `topN` values are not modelled. The parameter is an optional integer.
- HillClimb.RandomSolution: zero players gives None. The source would push an entry with an undefined player, but the restart then fails in `computeCost`, in the source as in the model.
- HillClimb.FormatResult: requires every entry's index to name a player. It is only applied to valid ten-player solutions, where this holds.
- RoleEnumerator.SortShuffle: the engine's sort driven by a random comparator is modelled as an oracle-chosen ordering. Which orderings an engine actually produces, and how often, is not modelled.
- RoleEnumerator.Scores: the `RANDOM_FACTOR` jitter is a natural-number tie-break per candidate. It stands for the order of the jitter sums: ratings are integers and the jitter adds less than one, so this comparison is exact. Floating-point rounding is not modelled.
- RoleEnumerator.WeightedRandomPick: weights and the drawn point are exact reals. Floating-point rounding, which could in rare cases make the source reach its `solutions[0]` fallback, is not modelled. The draw is required to lie in [0, 1), which is the range of `Math.random`.
- Combinatorics.SortBy: the contract states the result is a reordering and sorted. Stability, meaning that equal keys keep their order as in `Array.prototype.sort`, holds of the definition but is not stated as a property.
