/**
 The total-rating balancer: every way to put five of the players on team A
 is scored by the gap between the two teams' summed ratings, the splits are
 ranked by that gap, one of the best few is drawn at random, and each
 team's roles are dealt out by a shuffle.
 */
module TotalRating {
  import opened Common
  import opened Combinatorics

  /** Every listed index names a player. */
  predicate IndicesIn(players: seq<Player>, indices: seq<nat>) {
    forall x :: x in indices ==> x < |players|
  }

  /**
   `totalRating`: the sum, over the listed players, of all five ratings of
   each. Integer addition is associative, so summing from the front gives
   the value of the left-to-right `reduce`.
   */
  function TotalRating(players: seq<Player>, indices: seq<nat>): (r: int)
    requires IndicesIn(players, indices)
    ensures forall acc :: ReduceFrom(players, indices, acc) == acc + r
  {
    if |indices| == 0 then 0
    else
      assert indices[0] in indices;
      assert forall x :: x in indices[1..] ==> x in indices;
      players[indices[0]].ratings.Total() + TotalRating(players, indices[1..])
  }

  /**
   `indices.reduce((sum, idx) => sum + total(idx), acc)`: the running sum
   carried left to right, starting from `acc`.
   */
  function ReduceFrom(players: seq<Player>, indices: seq<nat>, acc: int): int
    requires IndicesIn(players, indices)
  {
    if |indices| == 0 then acc
    else
      assert indices[0] in indices;
      assert forall x :: x in indices[1..] ==> x in indices;
      ReduceFrom(players, indices[1..], acc + players[indices[0]].ratings.Total())
  }

  /** The players a filter keeps and the ones it drops sum to the whole list. */
  lemma {:induction false} TotalSplits(players: seq<Player>, s: seq<nat>, e: seq<nat>)
    requires IndicesIn(players, s)
    ensures IndicesIn(players, Keep(s, e)) && IndicesIn(players, Without(s, e))
    ensures TotalRating(players, Keep(s, e)) + TotalRating(players, Without(s, e)) == TotalRating(players, s)
  {
    if |s| > 0 {
      assert forall x :: x in s[1..] ==> x in s;
      TotalSplits(players, s[1..], e);
      var k, w := Keep(s[1..], e), Without(s[1..], e);
      if s[0] in e {
        assert Keep(s, e) == [s[0]] + k;
        assert ([s[0]] + k)[1..] == k;
      } else {
        assert Without(s, e) == [s[0]] + w;
        assert ([s[0]] + w)[1..] == w;
      }
    }
  }

  /** One way to split the players: team A, team B and the gap between their totals. */
  datatype Split = Split(teamA: seq<nat>, teamB: seq<nat>, diff: nat)

  /**
   The score of putting `teamA` on team A: team B is everybody else, in
   index order, and the gap is how far team A's total is from half of the
   grand total, doubled.
   */
  function Score(players: seq<Player>, teamA: seq<nat>): (r: Split)
    requires IsSubseq(teamA, Range(|players|))
    ensures r.teamA == teamA
    ensures forall x: nat :: x in r.teamB <==> x < |players| && x !in teamA
    ensures multiset(r.teamA) + multiset(r.teamB) == multiset(Range(|players|))
    ensures IndicesIn(players, r.teamA) && IndicesIn(players, r.teamB)
    ensures r.diff == Abs(2 * TotalRating(players, teamA) - TotalRating(players, Range(|players|)))
  {
    var teamB := Without(Range(|players|), teamA);
    ComplementFacts(players, teamA);
    Split(teamA, teamB, Abs(TotalRating(players, teamA) - TotalRating(players, teamB)))
  }

  /** Team B is the rest of the indices, and the two teams' totals make up the grand total. */
  lemma ComplementFacts(players: seq<Player>, teamA: seq<nat>)
    requires IsSubseq(teamA, Range(|players|))
    ensures var teamB := Without(Range(|players|), teamA);
      && (forall x: nat :: x in teamB <==> x < |players| && x !in teamA)
      && multiset(teamA) + multiset(teamB) == multiset(Range(|players|))
      && IndicesIn(players, teamA) && IndicesIn(players, teamB)
      && TotalRating(players, teamA) + TotalRating(players, teamB) == TotalRating(players, Range(|players|))
  {
    var all := Range(|players|);
    RangeFacts(|players|);
    SubseqFacts(teamA, all);
    KeepSubseq(all, teamA);
    KeepWithoutSplit(all, teamA);
    TotalSplits(players, all, teamA);
  }

  /** Every split, team A running over the 5-combinations of the indices in order. */
  function Splits(players: seq<Player>): (r: seq<Split>)
    ensures |r| == Choose(|players|, TeamSize)
    ensures forall i :: 0 <= i < |r| ==>
      (IsSubseq(Combinations(Range(|players|), TeamSize)[i], Range(|players|))
       && r[i] == Score(players, Combinations(Range(|players|), TeamSize)[i]))
  {
    var combos := Combinations(Range(|players|), TeamSize);
    seq(|combos|, i requires 0 <= i < |combos| => Score(players, combos[i]))
  }

  /** The splits sorted by gap, most balanced first, ties in enumeration order. */
  function Ranked(players: seq<Player>): (r: seq<Split>)
    ensures multiset(r) == multiset(Splits(players))
    ensures SortedBy(r, (s: Split) => s.diff)
  {
    SortBy(Splits(players), (s: Split) => s.diff)
  }

  /** `config.topN || 5`: an absent or zero setting means five. */
  function TopN(topN: Option<int>): int {
    match topN
    case None => 5
    case Some(k) => if k == 0 then 5 else k
  }

  /** How many ranked splits the random pick chooses among (`ranked.slice(0, topN)`). */
  function Cut(players: seq<Player>, topN: Option<int>): (r: nat)
    ensures r <= |Ranked(players)|
    ensures 0 <= TopN(topN) ==>
      r == if TopN(topN) < |Ranked(players)| then TopN(topN) else |Ranked(players)|
    ensures TopN(topN) < 0 ==>
      r == if |Ranked(players)| + TopN(topN) < 0 then 0 else |Ranked(players)| + TopN(topN)
  {
    SliceEnd(|Ranked(players)|, TopN(topN))
  }

  /** The draw for the pick and one stream for each team's role shuffle. */
  datatype Draws = Draws(pick: seq<nat>, rolesA: seq<nat>, rolesB: seq<nat>)

  /** A seat of the result; a player past the fifth of a team gets no role. */
  datatype Placement = Placement(playerIndex: nat, team: Team, role: Option<Role>)

  /** `teamX.forEach((playerIndex, i) => push({playerIndex, team, role: roles[i]}))`. */
  function Assign(indices: seq<nat>, t: Team, roles: seq<Role>): (r: seq<Placement>)
    ensures |r| == |indices|
    ensures forall i :: 0 <= i < |indices| ==>
      r[i] == Placement(indices[i], t, if i < |roles| then Some(roles[i]) else None)
  {
    seq(|indices|, i requires 0 <= i < |indices| =>
      Placement(indices[i], t, if i < |roles| then Some(roles[i]) else None))
  }

  /**
   Dealing an ordering of the five roles gives the first five players of a
   team distinct roles and leaves any player past the fifth without one.
   */
  lemma AssignRoles(indices: seq<nat>, t: Team, roles: seq<Role>)
    requires IsPermutationOf(roles, RoleKeys)
    ensures forall i :: 0 <= i < |indices| ==> (Assign(indices, t, roles)[i].role.Some? <==> i < TeamSize)
    ensures forall i, j :: 0 <= i < j < |indices| && j < TeamSize ==>
      Assign(indices, t, roles)[i].role != Assign(indices, t, roles)[j].role
  {
    assert |multiset(roles)| == |multiset(RoleKeys)|;
    RoleKeysDistinct();
    PermutationKeepsDistinct(roles, RoleKeys);
  }

  /**
   `sol` seats split `s`: team A's players first, in order, then team B's,
   each team's roles dealt from some ordering of the five roles.
   */
  ghost predicate DealtFrom(sol: seq<Placement>, s: Split) {
    exists ra, rb :: (IsPermutationOf(ra, RoleKeys) && IsPermutationOf(rb, RoleKeys)
      && sol == Assign(s.teamA, A, ra) + Assign(s.teamB, B, rb))
  }

  /** The seating of a chosen split, each team's roles shuffled by its own stream. */
  function Deal(choice: Split, d: Draws): (sol: seq<Placement>)
    ensures DealtFrom(sol, choice)
  {
    var ra := Shuffle(RoleKeys, d.rolesA);
    var rb := Shuffle(RoleKeys, d.rolesB);
    var sol := Assign(choice.teamA, A, ra) + Assign(choice.teamB, B, rb);
    assert IsPermutationOf(ra, RoleKeys) && IsPermutationOf(rb, RoleKeys);
    sol
  }

  /**
   `generateOptimalTeams`: one of the `topN` most balanced splits, with
   team A's players first, then team B's, each team's roles a shuffle of
   the five roles. None where the source fails on an empty choice list:
   fewer than five players, or a cut that keeps nothing.
   */
  function GenerateOptimalTeams(players: seq<Player>, topN: Option<int>, d: Draws): (r: Option<seq<Placement>>)
    ensures r.Some? <==> Cut(players, topN) > 0
    ensures r.Some? ==> exists k :: 0 <= k < Cut(players, topN) && DealtFrom(r.value, Ranked(players)[k])
  {
    var cut := Cut(players, topN);
    if cut == 0 then None
    else
      var k := Draw(d.pick, 0, cut);
      Some(Deal(Ranked(players)[k], d))
  }

  // ---------------------------------------------------------------------
  // Properties of the ranking

  /** Every ranked split is the score of some five players. */
  lemma RankedIsScored(players: seq<Player>, k: nat)
    requires k < |Ranked(players)|
    ensures exists c :: (IsSubseq(c, Range(|players|)) && |c| == TeamSize
      && Ranked(players)[k] == Score(players, c))
  {
    var ranked, splits := Ranked(players), Splits(players);
    assert ranked[k] in multiset(splits);
    var i :| 0 <= i < |splits| && splits[i] == ranked[k];
    var c := Combinations(Range(|players|), TeamSize)[i];
    assert IsSubseq(c, Range(|players|)) && |c| == TeamSize && splits[i] == Score(players, c);
  }

  /** Every choice of five players is ranked somewhere. */
  lemma EverySplitRanked(players: seq<Player>, c: seq<nat>)
    requires IsSubseq(c, Range(|players|)) && |c| == TeamSize
    ensures exists j :: 0 <= j < |Ranked(players)| && Ranked(players)[j] == Score(players, c)
  {
    var combos := Combinations(Range(|players|), TeamSize);
    CombinationsComplete(Range(|players|), TeamSize, c);
    var i :| 0 <= i < |combos| && combos[i] == c;
    var splits := Splits(players);
    assert splits[i] == Score(players, c);
    assert Score(players, c) in multiset(Ranked(players));
  }

  /**
   The first ranked split is a most balanced one: no choice of five
   players has a smaller gap. With `topN` 1 the result is optimal.
   */
  lemma TopIsOptimal(players: seq<Player>, c: seq<nat>)
    requires IsSubseq(c, Range(|players|)) && |c| == TeamSize
    ensures |Ranked(players)| > 0
    ensures Ranked(players)[0].diff <= Score(players, c).diff
  {
    EverySplitRanked(players, c);
    var j :| 0 <= j < |Ranked(players)| && Ranked(players)[j] == Score(players, c);
    var key := (s: Split) => s.diff;
    assert key(Ranked(players)[0]) <= key(Ranked(players)[j]);
  }

  /** The pick only ever comes from the cut: a kept split is at least as balanced as any dropped one. */
  lemma CutKeepsBest(players: seq<Player>, topN: Option<int>, k: nat, j: nat)
    requires k < Cut(players, topN) <= j < |Ranked(players)|
    ensures Ranked(players)[k].diff <= Ranked(players)[j].diff
  {
    var key := (s: Split) => s.diff;
    assert key(Ranked(players)[k]) <= key(Ranked(players)[j]);
  }

  /** No two ranked splits put the same players on team A. */
  lemma RankedTeamsDistinct(players: seq<Player>)
    ensures forall i, j :: 0 <= i < j < |Ranked(players)| ==> Ranked(players)[i].teamA != Ranked(players)[j].teamA
  {
    var ranked, splits := Ranked(players), Splits(players);
    var combos := Combinations(Range(|players|), TeamSize);
    RangeFacts(|players|);
    CombinationsDistinct(Range(|players|), TeamSize);
    assert Distinct(splits) by {
      forall i, j | 0 <= i < j < |splits|
        ensures splits[i] != splits[j]
      {
        assert splits[i].teamA == combos[i] && splits[j].teamA == combos[j];
      }
    }
    PermutationKeepsDistinct(ranked, splits);
    forall i, j | 0 <= i < j < |ranked|
      ensures ranked[i].teamA != ranked[j].teamA
    {
      RankedIsScored(players, i);
      RankedIsScored(players, j);
    }
  }

  lemma RankedCount(players: seq<Player>)
    ensures |Ranked(players)| == Choose(|players|, TeamSize)
  {
    assert |Ranked(players)| == |multiset(Ranked(players))| == |multiset(Splits(players))|;
  }

  /** Ten players give the 252 splits of ten into two teams of five. */
  lemma TenPlayersRank252(players: seq<Player>)
    requires |players| == PlayerCount
    ensures |Ranked(players)| == 252
  {
    RankedCount(players);
    TenChooseFive(|players|);
  }

  /**
   Under any positive `topN`, the default included, a result exists exactly
   from five players on; a negative one can cut every split away.
   */
  lemma PositiveTopNSucceeds(players: seq<Player>, topN: Option<int>, d: Draws)
    requires 0 < TopN(topN)
    ensures GenerateOptimalTeams(players, topN, d).Some? <==> |players| >= TeamSize
  {
    ChoosePositive(|players|, TeamSize);
    RankedCount(players);
  }

  /** Under the default `topN` the draw succeeds exactly when there are five players to pick. */
  lemma DefaultSucceeds(players: seq<Player>, d: Draws)
    ensures GenerateOptimalTeams(players, None, d).Some? <==> |players| >= TeamSize
  {
    ChoosePositive(|players|, TeamSize);
    RankedCount(players);
  }

  // ---------------------------------------------------------------------
  // Ten players give a valid solution

  /** A seating whose every player has a role, as solution entries. */
  function Seated(sol: seq<Placement>): (r: seq<Entry>)
    requires forall i :: 0 <= i < |sol| ==> sol[i].role.Some?
    ensures |r| == |sol|
    ensures forall i :: 0 <= i < |sol| ==> r[i] == Entry(sol[i].playerIndex, sol[i].team, sol[i].role.value)
  {
    seq(|sol|, i requires 0 <= i < |sol| => Entry(sol[i].playerIndex, sol[i].team, sol[i].role.value))
  }

  /** Every player has a role, and as entries the seating is a valid solution. */
  predicate ValidSeating(sol: seq<Placement>) {
    && (forall i :: 0 <= i < |sol| ==> sol[i].role.Some?)
    && ValidSolution(Seated(sol))
  }

  lemma TeamSlotsPermute(t: Team, roles: seq<Role>)
    requires IsPermutationOf(roles, RoleKeys)
    ensures multiset(SlotsOfTeam(t, roles)) == multiset(SlotsOfTeam(t, RoleKeys))
  {
    var f := (r: Role) => Slot(t, r);
    assert SlotsOfTeam(t, roles) == MapSeq(f, roles);
    assert SlotsOfTeam(t, RoleKeys) == MapSeq(f, RoleKeys);
    MapKeepsPermutation(f, roles, RoleKeys);
  }

  lemma DealShape(s: Split, ra: seq<Role>, rb: seq<Role>, sol: seq<Placement>)
    requires |s.teamA| == |ra| == TeamSize && |s.teamB| == |rb| == TeamSize
    requires sol == Assign(s.teamA, A, ra) + Assign(s.teamB, B, rb)
    ensures forall i :: 0 <= i < |sol| ==> sol[i].role.Some?
    ensures PlayerIndices(Seated(sol)) == s.teamA + s.teamB
    ensures SlotsOf(Seated(sol)) == SlotsOfTeam(A, ra) + SlotsOfTeam(B, rb)
  {
    var sa, sb := Assign(s.teamA, A, ra), Assign(s.teamB, B, rb);
    forall i | 0 <= i < |sol|
      ensures sol[i].role.Some?
      ensures sol[i].playerIndex == (s.teamA + s.teamB)[i]
      ensures Slot(sol[i].team, sol[i].role.value) == (SlotsOfTeam(A, ra) + SlotsOfTeam(B, rb))[i]
    {
      if i < TeamSize {
        assert sol[i] == sa[i];
      } else {
        assert sol[i] == sb[i - TeamSize];
      }
    }
    var e := Seated(sol);
    assert PlayerIndices(e) == s.teamA + s.teamB;
    assert SlotsOf(e) == SlotsOfTeam(A, ra) + SlotsOfTeam(B, rb);
  }

  /** Dealing two teams of five over ten players fills every slot once with every player once. */
  lemma DealIsValid(s: Split, sol: seq<Placement>)
    requires |s.teamA| == TeamSize
    requires multiset(s.teamA) + multiset(s.teamB) == multiset(Range(PlayerCount))
    requires DealtFrom(sol, s)
    ensures ValidSeating(sol)
  {
    var ra, rb :| (IsPermutationOf(ra, RoleKeys) && IsPermutationOf(rb, RoleKeys)
      && sol == Assign(s.teamA, A, ra) + Assign(s.teamB, B, rb));
    DealWithRolesIsValid(s, ra, rb, sol);
  }

  lemma DealWithRolesIsValid(s: Split, ra: seq<Role>, rb: seq<Role>, sol: seq<Placement>)
    requires |s.teamA| == TeamSize
    requires multiset(s.teamA) + multiset(s.teamB) == multiset(Range(PlayerCount))
    requires IsPermutationOf(ra, RoleKeys) && IsPermutationOf(rb, RoleKeys)
    requires sol == Assign(s.teamA, A, ra) + Assign(s.teamB, B, rb)
    ensures ValidSeating(sol)
  {
    assert |multiset(s.teamA) + multiset(s.teamB)| == PlayerCount;
    assert |s.teamB| == TeamSize;
    assert |ra| == TeamSize && |rb| == TeamSize by {
      assert |multiset(ra)| == |multiset(RoleKeys)|;
      assert |multiset(rb)| == |multiset(RoleKeys)|;
    }
    DealShape(s, ra, rb, sol);
    TeamSlotsPermute(A, ra);
    TeamSlotsPermute(B, rb);
    var e := Seated(sol);
    assert multiset(PlayerIndices(e)) == multiset(Range(PlayerCount));
    assert multiset(SlotsOf(e)) == multiset(SlotsOfTeam(A, RoleKeys)) + multiset(SlotsOfTeam(B, RoleKeys));
  }

  /** With ten players, every successful draw is a valid solution. */
  lemma TenPlayersValid(players: seq<Player>, topN: Option<int>, d: Draws)
    requires |players| == PlayerCount
    requires GenerateOptimalTeams(players, topN, d).Some?
    ensures ValidSeating(GenerateOptimalTeams(players, topN, d).value)
  {
    var sol := GenerateOptimalTeams(players, topN, d).value;
    var k :| 0 <= k < Cut(players, topN) && DealtFrom(sol, Ranked(players)[k]);
    RankedDealIsValid(players, k, sol);
  }

  lemma RankedDealIsValid(players: seq<Player>, k: nat, sol: seq<Placement>)
    requires |players| == PlayerCount
    requires k < |Ranked(players)| && DealtFrom(sol, Ranked(players)[k])
    ensures ValidSeating(sol)
  {
    RankedIsScored(players, k);
    var c :| IsSubseq(c, Range(|players|)) && |c| == TeamSize && Ranked(players)[k] == Score(players, c);
    DealIsValid(Ranked(players)[k], sol);
  }
}
