/**
 The per-role balancer of the single-page form: every 5-of-10 split of the
 (shuffled) players is scored by giving each team its least-deviating role
 assignment and summing the per-role rating gaps between the teams; the
 result is drawn, weighted towards balance, from five splits taken off a
 shuffled copy of the scored list.

 Players are objects in the source and `includes` compares identities; here
 a player is named by its position in the shuffled list.
 */
module RoleEnumerator {
  import opened Common
  import opened Combinatorics

  /** Midpoint of the 1..5 rating scale that role deviations are measured from. */
  const Midpoint: int := 3

  /** `RANDOMNESS_POOL_SIZE`: how many splits the weighted pick draws among. */
  const PoolSize: nat := 5

  // ---------------------------------------------------------------------
  // Shuffle by random comparator

  /**
   `arr.slice().sort(() => Math.random() - 0.5)`: the engine's sort driven
   by coin flips yields some ordering of a copy of `a`. The oracle names
   that ordering directly: draw k picks, among the elements not yet placed,
   the one placed k-th.
   */
  function SortShuffle<T>(a: seq<T>, draws: seq<nat>): (r: seq<T>)
    ensures |r| == |a|
    ensures multiset(r) == multiset(a)
    decreases |a|
  {
    if |a| == 0 then []
    else
      var j := Draw(draws, 0, |a|);
      RemoveAt(a, j);
      assert a == a[..j] + [a[j]] + a[j+1..];
      [a[j]] + SortShuffle(a[..j] + a[j+1..], if |draws| > 0 then draws[1..] else [])
  }

  /** Every ordering of `a` is the outcome of some run of the shuffle. */
  lemma {:induction false} SortShuffleReachesAll<T>(a: seq<T>, p: seq<T>)
    requires multiset(p) == multiset(a)
    ensures exists draws :: SortShuffle(a, draws) == p
    decreases |a|
  {
    if |a| == 0 {
      assert |multiset(p)| == 0;
      var draws: seq<nat> := [];
      assert SortShuffle(a, draws) == p;
    } else {
      assert |p| == |a| by {
        assert |multiset(p)| == |multiset(a)|;
      }
      assert p[0] in multiset(a);
      var j: nat :| j < |a| && a[j] == p[0];
      var rest := a[..j] + a[j+1..];
      RemoveAt(a, j);
      assert p == [p[0]] + p[1..];
      assert multiset(p[1..]) == multiset(rest);
      SortShuffleReachesAll(rest, p[1..]);
      var tail :| SortShuffle(rest, tail) == p[1..];
      SortShuffleStep(a, j, tail);
      ShuffleWitness(a, p, [j] + tail);
    }
  }

  lemma ShuffleWitness<T>(a: seq<T>, p: seq<T>, draws: seq<nat>)
    requires SortShuffle(a, draws) == p
    ensures exists d :: SortShuffle(a, d) == p
  {
  }

  /** A draw below the length picks that element first and hands the rest of the stream on. */
  lemma SortShuffleStep<T>(a: seq<T>, j: nat, tail: seq<nat>)
    requires j < |a|
    ensures SortShuffle(a, [j] + tail) == [a[j]] + SortShuffle(a[..j] + a[j+1..], tail)
  {
    var draws := [j] + tail;
    DrawExact(draws, 0, |a|);
    assert draws[1..] == tail;
  }

  // ---------------------------------------------------------------------
  // Role assignment of one team

  /**
   Sum over the team of how far each member's rating in the role the
   permutation gives them is from the midpoint.
   */
  function Deviation(team: seq<Player>, perm: seq<Role>): (r: nat)
    requires |team| <= |perm|
    decreases |team|
  {
    if |team| == 0 then 0
    else Abs(team[0].ratings.Of(perm[0]) - Midpoint) + Deviation(team[1..], perm[1..])
  }

  /** A team deviates not at all exactly when every member is rated the midpoint in their role. */
  lemma {:induction false} DeviationZero(team: seq<Player>, perm: seq<Role>)
    requires |team| <= |perm|
    ensures Deviation(team, perm) == 0 <==> forall i :: 0 <= i < |team| ==> team[i].ratings.Of(perm[i]) == Midpoint
    decreases |team|
  {
    if |team| > 0 {
      DeviationZero(team[1..], perm[1..]);
      assert forall i :: 1 <= i < |team| ==> team[1..][i - 1] == team[i] && perm[1..][i - 1] == perm[i];
    }
  }

  /**
   The score a candidate permutation is compared by. Ratings are integers
   and the random tie-break adds less than one in total, so comparing the
   real-valued scores is comparing (deviation, tie-break) lexicographically;
   the tie-break is the oracle's order-preserving code of the jitter sum.
   */
  predicate LexLess(a: (nat, nat), b: (nat, nat)) {
    a.0 < b.0 || (a.0 == b.0 && a.1 < b.1)
  }

  /**
   The `forEach` that keeps the first candidate and replaces it only by a
   strictly smaller score: the earliest least key.
   */
  function FirstMin(keys: seq<(nat, nat)>): (r: nat)
    requires |keys| > 0
    ensures r < |keys|
    ensures forall j :: 0 <= j < |keys| ==> !LexLess(keys[j], keys[r])
    ensures forall j :: 0 <= j < r ==> LexLess(keys[r], keys[j])
    decreases |keys|
  {
    if |keys| == 1 then 0
    else
      var b := FirstMin(keys[..|keys| - 1]);
      if LexLess(keys[|keys| - 1], keys[b]) then |keys| - 1 else b
  }

  /** The 120 role orderings, in the order one shuffle of them leaves them. */
  function ShuffledPerms(order: seq<nat>): (r: seq<seq<Role>>)
    ensures |r| == 120
    ensures forall k :: 0 <= k < |r| ==> IsPermutationOf(r[k], RoleKeys) && |r[k]| == TeamSize
  {
    var all := Permutations(RoleKeys);
    FivePermutationCount();
    var r := SortShuffle(all, order);
    forall k | 0 <= k < |r|
      ensures IsPermutationOf(r[k], RoleKeys) && |r[k]| == TeamSize
    {
      ReorderedPermutation(all, r, k);
    }
    r
  }

  lemma ReorderedPermutation(all: seq<seq<Role>>, r: seq<seq<Role>>, k: nat)
    requires forall p :: p in all ==> multiset(p) == multiset(RoleKeys)
    requires multiset(r) == multiset(all) && k < |r|
    ensures IsPermutationOf(r[k], RoleKeys) && |r[k]| == TeamSize
  {
    assert r[k] in multiset(r);
    assert r[k] in all;
    assert |multiset(r[k])| == |multiset(RoleKeys)|;
  }

  /** Every ordering of the roles is among the candidates. */
  lemma ShuffledPermsComplete(order: seq<nat>, p: seq<Role>) returns (j: nat)
    requires IsPermutationOf(p, RoleKeys)
    ensures j < |ShuffledPerms(order)| && ShuffledPerms(order)[j] == p
  {
    var all := Permutations(RoleKeys);
    PermutationsComplete(RoleKeys, p);
    j := PositionIn(ShuffledPerms(order), all, p);
  }

  /** An element of `all` has a position in any reordering `r` of it. */
  lemma PositionIn<T>(r: seq<T>, all: seq<T>, x: T) returns (j: nat)
    requires multiset(r) == multiset(all) && x in all
    ensures j < |r| && r[j] == x
  {
    assert x in multiset(all);
    assert x in r;
    j :| 0 <= j < |r| && r[j] == x;
  }

  /** The random inputs of one `bestRoleAssignment` call. */
  datatype AssignDraws = AssignDraws(order: seq<nat>, jitter: seq<nat>)

  function Jitter(d: AssignDraws, k: nat): nat {
    if k < |d.jitter| then d.jitter[k] else 0
  }

  /** The score of every candidate permutation, in candidate order. */
  function Scores(team: seq<Player>, perms: seq<seq<Role>>, d: AssignDraws): (r: seq<(nat, nat)>)
    requires |team| <= TeamSize
    requires forall k :: 0 <= k < |perms| ==> |perms[k]| == TeamSize
    ensures |r| == |perms|
    ensures forall k :: 0 <= k < |perms| ==> r[k] == (Deviation(team, perms[k]), Jitter(d, k))
  {
    seq(|perms|, k requires 0 <= k < |perms| => (Deviation(team, perms[k]), Jitter(d, k)))
  }

  /**
   The permutation `bestRoleAssignment` settles on: the first candidate
   whose score no later candidate beats strictly.
   */
  function ChosenPerm(team: seq<Player>, d: AssignDraws): (p: seq<Role>)
    requires |team| <= TeamSize
    ensures IsPermutationOf(p, RoleKeys) && |p| == TeamSize
  {
    PickBest(team, ShuffledPerms(d.order), d)
  }

  /** The earliest of `perms` with the least score. */
  function PickBest(team: seq<Player>, perms: seq<seq<Role>>, d: AssignDraws): (p: seq<Role>)
    requires |team| <= TeamSize && |perms| > 0
    requires forall k :: 0 <= k < |perms| ==> |perms[k]| == TeamSize
    ensures p in perms
  {
    perms[FirstMin(Scores(team, perms, d))]
  }

  /** No candidate of `perms` deviates less than the one picked. */
  lemma PickBestBeats(team: seq<Player>, perms: seq<seq<Role>>, d: AssignDraws, j: nat)
    requires |team| <= TeamSize && |perms| > 0
    requires forall k :: 0 <= k < |perms| ==> |perms[k]| == TeamSize
    requires j < |perms|
    ensures Deviation(team, PickBest(team, perms, d)) <= Deviation(team, perms[j])
  {
    var keys := Scores(team, perms, d);
    var w := FirstMin(keys);
    assert !LexLess(keys[j], keys[w]);
  }

  /**
   `assignment[perm[i]] = team[i]` for each member in turn: a later write
   to the same role would win.
   */
  function Lineup(team: seq<Player>, perm: seq<Role>): (m: map<Role, Player>)
    requires |team| <= |perm|
    ensures m.Keys == set i | 0 <= i < |team| :: perm[i]
    decreases |team|
  {
    if |team| == 0 then map[]
    else
      var m := Lineup(team[..|team| - 1], perm);
      m[perm[|team| - 1] := team[|team| - 1]]
  }

  /** With a permutation of distinct roles, member i holds role perm[i]. */
  lemma {:induction false} LineupHolds(team: seq<Player>, perm: seq<Role>, i: nat)
    requires |team| <= |perm| && Distinct(perm) && i < |team|
    ensures perm[i] in Lineup(team, perm) && Lineup(team, perm)[perm[i]] == team[i]
    decreases |team|
  {
    if i < |team| - 1 {
      LineupHolds(team[..|team| - 1], perm, i);
    }
  }

  /**
   `bestRoleAssignment`: the role map of the least-deviating permutation,
   ties going to the first in shuffled order with the smaller jitter. A
   team of more than five scores NaN on every candidate, so nothing is
   ever kept and the result is null.
   */
  function BestRoleAssignment(team: seq<Player>, d: AssignDraws): (r: Option<map<Role, Player>>)
    ensures r.Some? <==> |team| <= TeamSize
  {
    if |team| > TeamSize then None
    else Some(Lineup(team, ChosenPerm(team, d)))
  }

  /** The chosen permutation deviates no more than any ordering of the roles. */
  lemma ChosenPermOptimal(team: seq<Player>, d: AssignDraws, q: seq<Role>)
    requires |team| <= TeamSize && IsPermutationOf(q, RoleKeys)
    ensures |q| == TeamSize
    ensures Deviation(team, ChosenPerm(team, d)) <= Deviation(team, q)
  {
    var perms := ShuffledPerms(d.order);
    var j := ShuffledPermsComplete(d.order, q);
    PickBestBeats(team, perms, d, j);
  }

  /** A team of five laid out by an ordering of the roles fills every role, member i in role p[i]. */
  lemma LineupOfPermutation(team: seq<Player>, p: seq<Role>)
    requires |team| == TeamSize && IsPermutationOf(p, RoleKeys) && |p| == TeamSize
    ensures forall role: Role :: role in Lineup(team, p)
    ensures forall i :: 0 <= i < TeamSize ==> Lineup(team, p)[p[i]] == team[i]
  {
    var m := Lineup(team, p);
    RoleKeysDistinct();
    PermutationKeepsDistinct(p, RoleKeys);
    forall i | 0 <= i < TeamSize
      ensures p[i] in m && m[p[i]] == team[i]
    {
      LineupHolds(team, p, i);
    }
    PermutationKeepsMembers(p, RoleKeys);
    forall role: Role
      ensures role in m
    {
      assert role in RoleKeys;
      var i :| 0 <= i < |p| && p[i] == role;
    }
  }

  /** `p` orders the roles and no ordering gives the team a smaller deviation. */
  ghost predicate LeastDeviating(team: seq<Player>, p: seq<Role>)
    requires |team| <= TeamSize
  {
    && IsPermutationOf(p, RoleKeys) && |p| == TeamSize
    && forall q :: IsPermutationOf(q, RoleKeys) && |q| == TeamSize ==> Deviation(team, p) <= Deviation(team, q)
  }

  /**
   A team of five gets every role, member i getting role p[i] for the
   chosen permutation p, which deviates least of all orderings.
   */
  lemma BestRoleAssignmentFacts(team: seq<Player>, d: AssignDraws)
    requires |team| == TeamSize
    ensures BestRoleAssignment(team, d).Some?
    ensures forall role: Role :: role in BestRoleAssignment(team, d).value
    ensures forall i :: 0 <= i < TeamSize ==> BestRoleAssignment(team, d).value[ChosenPerm(team, d)[i]] == team[i]
    ensures LeastDeviating(team, ChosenPerm(team, d))
  {
    var p := ChosenPerm(team, d);
    LineupOfPermutation(team, p);
    forall q | IsPermutationOf(q, RoleKeys) && |q| == TeamSize
      ensures Deviation(team, p) <= Deviation(team, q)
    {
      ChosenPermOptimal(team, d, q);
    }
  }

  /** A team of fewer than five leaves some role without a player. */
  lemma LineupMissesRole(team: seq<Player>, perm: seq<Role>)
    requires |team| < TeamSize && |team| <= |perm|
    ensures exists role: Role :: role !in Lineup(team, perm)
  {
    var keys := Lineup(team, perm).Keys;
    ImageSize(perm, |team|);
    if forall role: Role :: role in keys {
      assert {Top, Jun, Mid, Adc, Sup} <= keys;
      assert |{Top, Jun, Mid, Adc, Sup}| == 5;
      SubsetSize({Top, Jun, Mid, Adc, Sup}, keys);
      assert false;
    }
  }

  lemma {:induction false} ImageSize(perm: seq<Role>, k: nat)
    requires k <= |perm|
    ensures |set i | 0 <= i < k :: perm[i]| <= k
  {
    if k > 0 {
      ImageSize(perm, k - 1);
      assert (set i | 0 <= i < k :: perm[i]) == (set i | 0 <= i < k - 1 :: perm[i]) + {perm[k - 1]};
    }
  }

  lemma SubsetSize<T>(a: set<T>, b: set<T>)
    requires a <= b
    ensures |a| <= |b|
  {
    assert b == a + (b - a);
  }

  // ---------------------------------------------------------------------
  // Role difference between two teams

  /** Per-role rating gaps summed over `roles`; None when a team lacks one of them. */
  function GapOver(a: map<Role, Player>, b: map<Role, Player>, roles: seq<Role>): (r: Option<nat>)
    ensures r.Some? <==> forall i :: 0 <= i < |roles| ==> roles[i] in a && roles[i] in b
    decreases |roles|
  {
    if |roles| == 0 then Some(0)
    else
      var rest := GapOver(a, b, roles[1..]);
      var role := roles[0];
      if role in a && role in b && rest.Some? then
        Some(Abs(a[role].ratings.Of(role) - b[role].ratings.Of(role)) + rest.value)
      else None
  }

  /**
   `roleDifference`: the sum over the five roles of the gap between the
   two holders' ratings in that role. A team missing a role makes the
   source throw; that is None here.
   */
  function RoleDifference(a: map<Role, Player>, b: map<Role, Player>): (r: Option<nat>)
    ensures r.Some? <==> forall role: Role :: role in a && role in b
  {
    RolesListed(a, b);
    GapOver(a, b, RoleKeys)
  }

  lemma RolesListed(a: map<Role, Player>, b: map<Role, Player>)
    ensures (forall role: Role :: role in a && role in b) <==>
      (forall i :: 0 <= i < |RoleKeys| ==> RoleKeys[i] in a && RoleKeys[i] in b)
  {
    RoleKeysDistinct();
    if forall i :: 0 <= i < |RoleKeys| ==> RoleKeys[i] in a && RoleKeys[i] in b {
      forall role: Role
        ensures role in a && role in b
      {
        assert role in RoleKeys;
        var i :| 0 <= i < |RoleKeys| && RoleKeys[i] == role;
      }
    }
  }

  lemma {:induction false} GapOverSymmetric(a: map<Role, Player>, b: map<Role, Player>, roles: seq<Role>)
    ensures GapOver(a, b, roles) == GapOver(b, a, roles)
    decreases |roles|
  {
    if |roles| > 0 {
      GapOverSymmetric(a, b, roles[1..]);
    }
  }

  /** Swapping the teams leaves the role difference unchanged. */
  lemma RoleDifferenceSymmetric(a: map<Role, Player>, b: map<Role, Player>)
    ensures RoleDifference(a, b) == RoleDifference(b, a)
  {
    GapOverSymmetric(a, b, RoleKeys);
  }

  lemma {:induction false} GapOverZero(a: map<Role, Player>, b: map<Role, Player>, roles: seq<Role>)
    requires GapOver(a, b, roles).Some?
    ensures GapOver(a, b, roles).value == 0 <==>
      forall i :: 0 <= i < |roles| ==> a[roles[i]].ratings.Of(roles[i]) == b[roles[i]].ratings.Of(roles[i])
    decreases |roles|
  {
    if |roles| > 0 {
      GapOverZero(a, b, roles[1..]);
      assert forall i :: 1 <= i < |roles| ==> roles[i] == roles[1..][i - 1];
    }
  }

  /** The teams differ by nothing exactly when, role by role, the two holders are rated alike. */
  lemma RoleDifferenceZero(a: map<Role, Player>, b: map<Role, Player>)
    requires forall role: Role :: role in a && role in b
    ensures RoleDifference(a, b) == Some(0) <==>
      forall role: Role :: a[role].ratings.Of(role) == b[role].ratings.Of(role)
  {
    RoleKeysDistinct();
    GapOverZero(a, b, RoleKeys);
    if forall i :: 0 <= i < |RoleKeys| ==> a[RoleKeys[i]].ratings.Of(RoleKeys[i]) == b[RoleKeys[i]].ratings.Of(RoleKeys[i]) {
      forall role: Role
        ensures a[role].ratings.Of(role) == b[role].ratings.Of(role)
      {
        assert role in RoleKeys;
        var i :| 0 <= i < |RoleKeys| && RoleKeys[i] == role;
      }
    }
  }

  // ---------------------------------------------------------------------
  // Weighted pick

  /** A scored split: both role maps and the role difference between them. */
  datatype Solution = Solution(teamA: map<Role, Player>, teamB: map<Role, Player>, diff: nat)

  /** `1 / (diff + 1)`: the better balanced, the heavier. */
  function Weight(s: Solution): (w: real)
    ensures 0.0 < w <= 1.0
  {
    var y := s.diff as real + 1.0;
    var w := 1.0 / y;
    assert w * y == 1.0;
    assert w <= w * y;
    w
  }

  /** A heavier weight for a smaller difference. */
  lemma WeightFavoursBalance(s: Solution, t: Solution)
    requires s.diff < t.diff
    ensures Weight(t) < Weight(s)
  {
    var x, y := s.diff as real + 1.0, t.diff as real + 1.0;
    var ws, wt := Weight(s), Weight(t);
    assert ws * x == 1.0 && wt * y == 1.0;
    PositiveProduct(wt, y - x);
    assert wt * (y - x) == wt * y - wt * x;
    if wt >= ws {
      NonNegativeProduct(wt - ws, x);
      assert false;
    }
  }

  lemma PositiveProduct(a: real, b: real)
    requires a > 0.0 && b > 0.0
    ensures a * b > 0.0
  {
  }

  lemma NonNegativeProduct(a: real, b: real)
    requires a >= 0.0 && b >= 0.0
    ensures a * b >= 0.0
  {
  }

  /** The weights of the first `k` solutions, summed from the front. */
  function Prefix(sols: seq<Solution>, k: nat): (r: real)
    requires k <= |sols|
    ensures r >= 0.0
    ensures k > 0 ==> r > 0.0
  {
    if k == 0 then 0.0 else Prefix(sols, k - 1) + Weight(sols[k - 1])
  }

  /**
   The loop `random -= weights[i]; if (random <= 0) return i` from index
   `i` on; None when it runs off the end.
   */
  function PickFrom(sols: seq<Solution>, i: nat, random: real): (r: Option<nat>)
    requires i <= |sols|
    ensures r.Some? ==> i <= r.value < |sols|
    decreases |sols| - i
  {
    if i == |sols| then None
    else
      var rest := random - Weight(sols[i]);
      if rest <= 0.0 then Some(i) else PickFrom(sols, i + 1, rest)
  }

  /**
   The loop stops at the first index whose running weight reaches the
   drawn point `x`, and falls through only when the point lies beyond all
   the weight.
   */
  lemma {:induction false} PickFromSpec(sols: seq<Solution>, i: nat, x: real)
    requires i <= |sols|
    ensures PickFrom(sols, i, x - Prefix(sols, i)).Some? ==>
      var k := PickFrom(sols, i, x - Prefix(sols, i)).value;
      && x <= Prefix(sols, k + 1)
      && forall j :: i < j <= k ==> Prefix(sols, j) < x
    ensures PickFrom(sols, i, x - Prefix(sols, i)).None? ==>
      forall j :: i < j <= |sols| ==> Prefix(sols, j) < x
    decreases |sols| - i
  {
    if i < |sols| {
      var rest := x - Prefix(sols, i) - Weight(sols[i]);
      assert rest == x - Prefix(sols, i + 1);
      if rest > 0.0 {
        PickFromSpec(sols, i + 1, x);
      }
    }
  }

  /** A point inside the total weight is always reached by the loop. */
  lemma PickWithin(sols: seq<Solution>, x: real)
    requires |sols| > 0 && 0.0 <= x <= Prefix(sols, |sols|)
    ensures PickFrom(sols, 0, x).Some?
    ensures var k := PickFrom(sols, 0, x).value;
      && x <= Prefix(sols, k + 1)
      && forall j :: 0 < j <= k ==> Prefix(sols, j) < x
  {
    assert x - Prefix(sols, 0) == x;
    PickFromSpec(sols, 0, x);
    if PickFrom(sols, 0, x).None? {
      assert false;
    }
  }

  /** A draw in [0, 1] scales the total to a point inside it. */
  lemma ScaledDraw(u: real, total: real)
    requires 0.0 <= u <= 1.0 && 0.0 <= total
    ensures 0.0 <= u * total <= total
  {
    NonNegativeProduct(u, total);
    NonNegativeProduct(1.0 - u, total);
    assert (1.0 - u) * total == total - u * total;
  }

  /** `Math.random() * totalWeight`: the drawn point, inside the total weight. */
  function DrawPoint(sols: seq<Solution>, u: real): (x: real)
    requires 0.0 <= u < 1.0
    ensures 0.0 <= x <= Prefix(sols, |sols|)
  {
    var total := Prefix(sols, |sols|);
    ScaledDraw(u, total);
    u * total
  }

  /**
   `weightedRandomPick`: the solution whose slice of the total weight holds
   the drawn point, `solutions[0]` if the loop falls through. An empty list
   yields undefined in the source; None here. `u` is the `Math.random()`
   draw, which lies in [0, 1).
   */
  function WeightedRandomPick(sols: seq<Solution>, u: real): (r: Option<Solution>)
    requires 0.0 <= u < 1.0
    ensures r.Some? <==> |sols| > 0
    ensures r.Some? ==> r.value in sols
  {
    if |sols| == 0 then None
    else
      match PickFrom(sols, 0, DrawPoint(sols, u))
      case Some(k) => Some(sols[k])
      case None => Some(sols[0])
  }

  /** The drawn point lands in the weight slice of solution `k`. */
  predicate InSlice(sols: seq<Solution>, u: real, k: nat)
    requires 0.0 <= u < 1.0
  {
    && k < |sols|
    && DrawPoint(sols, u) <= Prefix(sols, k + 1)
    && (k > 0 ==> Prefix(sols, k) < DrawPoint(sols, u))
  }

  /**
   The loop never falls through: the pick is the first solution whose
   running weight reaches the drawn point, so each solution is chosen
   exactly when the point lands in its own slice of the total.
   */
  lemma WeightedPickInSlice(sols: seq<Solution>, u: real)
    requires |sols| > 0 && 0.0 <= u < 1.0
    ensures exists k: nat :: InSlice(sols, u, k) && WeightedRandomPick(sols, u) == Some(sols[k])
  {
    var x := DrawPoint(sols, u);
    PickWithin(sols, x);
    var k := PickFrom(sols, 0, x).value;
    assert WeightedRandomPick(sols, u) == Some(sols[k]);
    assert k > 0 ==> Prefix(sols, k) < x;
    assert InSlice(sols, u, k);
  }

  // ---------------------------------------------------------------------
  // Driver

  /** The random inputs of the two `bestRoleAssignment` calls of one split. */
  datatype SplitDraws = SplitDraws(a: AssignDraws, b: AssignDraws)

  /**
   Every `Math.random` site of `generateOptimalTeams`: the player shuffle,
   the role assignments of each split in turn, the pool shuffle, and the
   weighted pick's draw, which lies in [0, 1).
   */
  datatype Draws = Draws(playerOrder: seq<nat>, splits: seq<SplitDraws>, poolOrder: seq<nat>, pick: real)

  function SplitDraw(d: Draws, k: nat): SplitDraws {
    if k < |d.splits| then d.splits[k] else SplitDraws(AssignDraws([], []), AssignDraws([], []))
  }

  /** Every position in `idx` is below `n`. */
  predicate Within(idx: seq<nat>, n: nat) {
    forall k :: 0 <= k < |idx| ==> idx[k] < n
  }

  /** The players at the given positions, in order. */
  function At(ps: seq<Player>, idx: seq<nat>): (r: seq<Player>)
    requires Within(idx, |ps|)
    ensures |r| == |idx|
    ensures forall k :: 0 <= k < |idx| ==> r[k] == ps[idx[k]]
  {
    seq(|idx|, k requires 0 <= k < |idx| => ps[idx[k]])
  }

  /**
   `shuffledPlayers.filter(p => !teamAPlayers.includes(p))`, players named
   by their position: every position below `n` that team A does not hold.
   */
  function Complement(n: nat, c: seq<nat>): (r: seq<nat>)
    ensures forall x: nat :: x in r <==> x < n && x !in c
    ensures Within(r, n)
  {
    RangeFacts(n);
    var r := Without(Range(n), c);
    assert forall k :: 0 <= k < |r| ==> r[k] in r;
    r
  }

  /** Team A takes fewer positions than there are, and team B takes the rest. */
  lemma ComplementSize(n: nat, c: seq<nat>)
    requires IsSubseq(c, Range(n))
    ensures |c| <= n && |Complement(n, c)| == n - |c|
  {
    RangeFacts(n);
    SubseqFacts(c, Range(n));
    KeepSubseq(Range(n), c);
    KeepWithoutSplit(Range(n), c);
  }

  /**
   The entry pushed for a split with the given assignments. A null or
   incomplete assignment makes `roleDifference` throw; that is None here.
   */
  function Pair(teamA: Option<map<Role, Player>>, teamB: Option<map<Role, Player>>): (r: Option<Solution>)
    ensures r.Some? ==> RoleDifference(r.value.teamA, r.value.teamB) == Some(r.value.diff)
    ensures r.Some? ==> teamA == Some(r.value.teamA) && teamB == Some(r.value.teamB)
    ensures r.Some? <==> Full(teamA) && Full(teamB)
  {
    if teamA.None? || teamB.None? then None
    else
      match RoleDifference(teamA.value, teamB.value)
      case None => None
      case Some(diff) => Some(Solution(teamA.value, teamB.value, diff))
  }

  /** One iteration of the `forEach`: each side gets its role assignment and the pair is scored. */
  function ScoreSplit(shuffled: seq<Player>, c: seq<nat>, sd: SplitDraws): (r: Option<Solution>)
    requires Within(c, |shuffled|)
  {
    Pair(BestRoleAssignment(At(shuffled, c), sd.a),
         BestRoleAssignment(At(shuffled, Complement(|shuffled|, c)), sd.b))
  }

  /**
   The entry pushed for a split holds team A's and team B's assignments
   with their role difference, and exists exactly when both fill every role.
   */
  lemma SplitEntry(shuffled: seq<Player>, c: seq<nat>, sd: SplitDraws)
    requires Within(c, |shuffled|)
    ensures var r := ScoreSplit(shuffled, c, sd);
      r.Some? <==> (Full(BestRoleAssignment(At(shuffled, c), sd.a))
                    && Full(BestRoleAssignment(At(shuffled, Complement(|shuffled|, c)), sd.b)))
    ensures var r := ScoreSplit(shuffled, c, sd);
      r.Some? ==>
        && BestRoleAssignment(At(shuffled, c), sd.a) == Some(r.value.teamA)
        && BestRoleAssignment(At(shuffled, Complement(|shuffled|, c)), sd.b) == Some(r.value.teamB)
        && RoleDifference(r.value.teamA, r.value.teamB) == Some(r.value.diff)
  {
  }

  /** Each split scored, in the order of `allSplits`. */
  function Outcomes(shuffled: seq<Player>, combos: seq<seq<nat>>, d: Draws): (r: seq<Option<Solution>>)
    requires forall i :: 0 <= i < |combos| ==> Within(combos[i], |shuffled|)
    ensures |r| == |combos|
    ensures forall i :: 0 <= i < |combos| ==> r[i] == ScoreSplit(shuffled, combos[i], SplitDraw(d, i))
  {
    seq(|combos|, i requires 0 <= i < |combos| => ScoreSplit(shuffled, combos[i], SplitDraw(d, i)))
  }

  /**
   The `forEach` pushing one entry per split: all the entries when no
   iteration throws, None as soon as one does.
   */
  function Collect<T>(os: seq<Option<T>>): (r: Option<seq<T>>)
    ensures r.Some? <==> forall i :: 0 <= i < |os| ==> os[i].Some?
    ensures r.Some? ==> |r.value| == |os|
    ensures r.Some? ==> forall i :: 0 <= i < |os| ==> os[i] == Some(r.value[i])
  {
    if |os| == 0 then Some([])
    else
      match os[0]
      case None => None
      case Some(s) =>
        match Collect(os[1..])
        case None => None
        case Some(rest) => Some([s] + rest)
  }

  /** Every 5-combination of the positions names positions of the list. */
  lemma CombosWithin(n: nat)
    ensures forall i :: 0 <= i < |Combinations(Range(n), TeamSize)| ==>
      Within(Combinations(Range(n), TeamSize)[i], n)
  {
    var combos := Combinations(Range(n), TeamSize);
    RangeFacts(n);
    forall i | 0 <= i < |combos|
      ensures Within(combos[i], n)
    {
      SubseqFacts(combos[i], Range(n));
      assert forall k :: 0 <= k < |combos[i]| ==> combos[i][k] in combos[i];
    }
  }

  /** The shuffled players, team A running over the 5-combinations of their positions. */
  function Shuffled(players: seq<Player>, d: Draws): (r: seq<Player>)
    ensures multiset(r) == multiset(players)
    ensures |r| == |players|
  {
    SortShuffle(players, d.playerOrder)
  }

  /** `solutions` after the `forEach`, None when some split throws. */
  function Scored(players: seq<Player>, d: Draws): (r: Option<seq<Solution>>)
    ensures r.Some? ==> |r.value| == Choose(|players|, TeamSize)
  {
    CombosWithin(|players|);
    Collect(Outcomes(Shuffled(players, d), Combinations(Range(|players|), TeamSize), d))
  }

  function DiffKey(s: Solution): int {
    s.diff
  }

  /**
   `shuffle(solutions).slice(0, min(RANDOMNESS_POOL_SIZE, n))`, the list
   first sorted by difference. After the shuffle any five solutions can
   form the pool, not only the five best balanced.
   */
  function Pool(sols: seq<Solution>, order: seq<nat>): (p: seq<Solution>)
    ensures |p| == if |sols| < PoolSize then |sols| else PoolSize
    ensures multiset(p) <= multiset(sols)
  {
    var shuffled := SortShuffle(SortBy(sols, DiffKey), order);
    var m := if |sols| < PoolSize then |sols| else PoolSize;
    assert shuffled == shuffled[..m] + shuffled[m..];
    shuffled[..m]
  }

  /**
   `generateOptimalTeams`: score every split of the shuffled players, and
   draw the result, weighted towards balance, from the pool. Fewer than
   five players give no split and the pick of an empty pool is undefined;
   None here, as for a split that throws.
   */
  function GenerateOptimalTeams(players: seq<Player>, d: Draws): (r: Option<Solution>)
    requires 0.0 <= d.pick < 1.0
    ensures r.Some? ==> Scored(players, d).Some? && r.value in Scored(players, d).value
    ensures r.Some? ==> var pool := Pool(Scored(players, d).value, d.poolOrder);
      exists k: nat :: InSlice(pool, d.pick, k) && r.value == pool[k]
  {
    match Scored(players, d)
    case None => None
    case Some(sols) => PickFromPool(sols, d.poolOrder, d.pick)
  }

  /** The weighted pick from the pool of `sols`: a solution whose weight slice holds the draw. */
  function PickFromPool(sols: seq<Solution>, order: seq<nat>, u: real): (r: Option<Solution>)
    requires 0.0 <= u < 1.0
    ensures r.Some? <==> |sols| > 0
    ensures r.Some? ==> r.value in sols
    ensures r.Some? ==> exists k: nat :: InSlice(Pool(sols, order), u, k) && r.value == Pool(sols, order)[k]
  {
    var pool := Pool(sols, order);
    var r := WeightedRandomPick(pool, u);
    assert r.Some? ==> r.value in multiset(pool);
    if r.Some? then WeightedPickInSlice(pool, u); r else r
  }

  /** An assignment that exists and gives every role a player. */
  predicate Full(r: Option<map<Role, Player>>) {
    r.Some? && forall role: Role :: role in r.value
  }

  /** `bestRoleAssignment` fills every role exactly for a team of five. */
  lemma AssignmentFull(team: seq<Player>, d: AssignDraws)
    ensures Full(BestRoleAssignment(team, d)) <==> |team| == TeamSize
  {
    if |team| == TeamSize {
      BestRoleAssignmentFacts(team, d);
    } else if |team| < TeamSize {
      LineupMissesRole(team, ChosenPerm(team, d));
    }
  }

  /**
   A split of five scores exactly when there are ten players: with fewer,
   team B misses a role; with more, team B's assignment is null.
   */
  lemma SplitScores(shuffled: seq<Player>, c: seq<nat>, sd: SplitDraws)
    requires |c| == TeamSize && IsSubseq(c, Range(|shuffled|)) && Within(c, |shuffled|)
    ensures ScoreSplit(shuffled, c, sd).Some? <==> |shuffled| == PlayerCount
  {
    var n := |shuffled|;
    ComplementSize(n, c);
    AssignmentFull(At(shuffled, c), sd.a);
    AssignmentFull(At(shuffled, Complement(n, c)), sd.b);
  }

  /**
   The `forEach` completes exactly when there are ten players, or fewer
   than five so that there is no split at all.
   */
  lemma ScoredSome(players: seq<Player>, d: Draws)
    ensures Scored(players, d).Some? <==> |players| < TeamSize || |players| == PlayerCount
  {
    var n := |players|;
    var shuffled := Shuffled(players, d);
    var combos := Combinations(Range(n), TeamSize);
    CombosWithin(n);
    ChoosePositive(n, TeamSize);
    var outcomes := Outcomes(shuffled, combos, d);
    forall i | 0 <= i < |combos|
      ensures outcomes[i].Some? <==> n == PlayerCount
    {
      SplitScores(shuffled, combos[i], SplitDraw(d, i));
    }
    if n >= TeamSize && n != PlayerCount {
      assert outcomes[0].None?;
    }
  }

  /** The generator yields a solution exactly for ten players. */
  lemma GenerateSomeIffTen(players: seq<Player>, d: Draws)
    requires 0.0 <= d.pick < 1.0
    ensures GenerateOptimalTeams(players, d).Some? <==> |players| == PlayerCount
  {
    ScoredSome(players, d);
    ChoosePositive(|players|, TeamSize);
  }

  /** Ten players give all 252 splits scored. */
  lemma TenPlayersScored(players: seq<Player>, d: Draws)
    requires |players| == PlayerCount
    ensures Scored(players, d).Some? && |Scored(players, d).value| == 252
  {
    ScoredSome(players, d);
    TenChooseFive(|players|);
  }

  /**
   With ten players a split of five is scored: team B holds the other five
   positions, each side fills every role with its own members, member i in
   role p[i] for its chosen permutation p, and no ordering of the roles
   deviates less from the midpoint.
   */
  lemma SplitOfTen(shuffled: seq<Player>, c: seq<nat>, sd: SplitDraws)
    requires |shuffled| == PlayerCount && |c| == TeamSize
    requires IsSubseq(c, Range(PlayerCount)) && Within(c, PlayerCount)
    ensures ScoreSplit(shuffled, c, sd).Some?
    ensures |Complement(PlayerCount, c)| == TeamSize
    ensures var s := ScoreSplit(shuffled, c, sd).value;
      && (forall role: Role :: role in s.teamA && role in s.teamB)
      && (forall i :: 0 <= i < TeamSize ==>
            s.teamA[ChosenPerm(At(shuffled, c), sd.a)[i]] == shuffled[c[i]])
      && (forall i :: 0 <= i < TeamSize ==>
            s.teamB[ChosenPerm(At(shuffled, Complement(PlayerCount, c)), sd.b)[i]]
              == shuffled[Complement(PlayerCount, c)[i]])
    ensures LeastDeviating(At(shuffled, c), ChosenPerm(At(shuffled, c), sd.a))
    ensures LeastDeviating(At(shuffled, Complement(PlayerCount, c)),
                           ChosenPerm(At(shuffled, Complement(PlayerCount, c)), sd.b))
  {
    SplitScores(shuffled, c, sd);
    ComplementSize(PlayerCount, c);
    BestRoleAssignmentFacts(At(shuffled, c), sd.a);
    BestRoleAssignmentFacts(At(shuffled, Complement(PlayerCount, c)), sd.b);
    SplitEntry(shuffled, c, sd);
  }

  /**
   The sort does not limit which solutions reach the pool: any scored
   solution heads it for some run of the shuffle, however badly balanced.
   */
  lemma AnySolutionCanBePooled(sols: seq<Solution>, s: Solution)
    requires s in sols
    ensures exists order :: Pool(sols, order)[0] == s
  {
    var sorted := SortBy(sols, DiffKey);
    assert s in multiset(sorted);
    var i :| 0 <= i < |sorted| && sorted[i] == s;
    var p := [sorted[i]] + (sorted[..i] + sorted[i+1..]);
    RemoveAt(sorted, i);
    assert multiset(p) == multiset(sorted);
    SortShuffleReachesAll(sorted, p);
    var order :| SortShuffle(sorted, order) == p;
    PoolWitness(sols, s, order);
  }

  lemma PoolWitness(sols: seq<Solution>, s: Solution, order: seq<nat>)
    requires |sols| > 0 && SortShuffle(SortBy(sols, DiffKey), order)[0] == s
    ensures exists o :: Pool(sols, o)[0] == s
  {
    assert Pool(sols, order)[0] == s;
  }
}
