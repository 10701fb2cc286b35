/**
 The hill-climbing balancer: a random full assignment of ten players to
 the ten (team, role) slots, improved by first-improvement pair swaps until
 no swap lowers the cost, restarted a number of times, the cheapest result
 kept and split into a role map per team.
 */
module HillClimb {
  import opened Common
  import opened Combinatorics

  // ---------------------------------------------------------------------
  // Cost

  /** Position of the first entry at or after `from` that sits in `slot` (`solution.find`). */
  function FindSlot(sol: seq<Entry>, slot: Slot, from: nat): (r: Option<nat>)
    requires from <= |sol|
    ensures r.Some? ==> from <= r.value < |sol| && sol[r.value].SlotOf() == slot
    ensures r.Some? ==> forall k :: from <= k < r.value ==> sol[k].SlotOf() != slot
    ensures r.None? ==> forall k :: from <= k < |sol| ==> sol[k].SlotOf() != slot
    decreases |sol| - from
  {
    if from == |sol| then None
    else if sol[from].SlotOf() == slot then Some(from)
    else FindSlot(sol, slot, from + 1)
  }

  /**
   Every slot is occupied and every entry names an existing player: what
   the cost function needs in order not to fail.
   */
  ghost predicate Wellformed(players: seq<Player>, sol: seq<Entry>) {
    && (forall s: Slot :: s in SlotsOf(sol))
    && (forall i :: 0 <= i < |sol| ==> sol[i].playerIndex < |players|)
  }

  /**
   |rating of the team-A player - rating of the team-B player| for one
   role; None where the source would fail (a missing slot, or an index
   with no player behind it).
   */
  function RoleGap(players: seq<Player>, sol: seq<Entry>, role: Role): (r: Option<nat>)
    ensures Wellformed(players, sol) ==> r.Some?
    ensures r.Some? ==> Slot(A, role) in SlotsOf(sol) && Slot(B, role) in SlotsOf(sol)
  {
    match (FindSlot(sol, Slot(A, role), 0), FindSlot(sol, Slot(B, role), 0))
    case (Some(a), Some(b)) =>
      var pa := sol[a].playerIndex;
      var pb := sol[b].playerIndex;
      assert SlotsOf(sol)[a] == Slot(A, role) && SlotsOf(sol)[b] == Slot(B, role);
      if pa < |players| && pb < |players| then
        Some(Abs(players[pa].ratings.Of(role) - players[pb].ratings.Of(role)))
      else None
    case _ =>
      AllSlotsDistinct();
      assert Wellformed(players, sol) ==> Slot(A, role) in SlotsOf(sol) && Slot(B, role) in SlotsOf(sol);
      None
  }

  function CostOver(players: seq<Player>, sol: seq<Entry>, roles: seq<Role>): (r: Option<nat>)
    ensures Wellformed(players, sol) ==> r.Some?
    ensures r.Some? ==> forall k :: 0 <= k < |roles| ==> RoleGap(players, sol, roles[k]).Some?
  {
    if |roles| == 0 then Some(0)
    else
      match (RoleGap(players, sol, roles[0]), CostOver(players, sol, roles[1..]))
      case (Some(g), Some(c)) =>
        assert forall k :: 1 <= k < |roles| ==> roles[k] == roles[1..][k - 1];
        Some(g + c)
      case _ => None
  }

  /**
   `computeCost`: the sum over `ROLE_KEYS` of the per-role rating gap
   between the two teams; None where the source would fail.
   */
  function ComputeCost(players: seq<Player>, sol: seq<Entry>): (r: Option<nat>)
    ensures Wellformed(players, sol) ==> r.Some?
    ensures r.Some? ==> forall s: Slot :: s in SlotsOf(sol)
  {
    var r := CostOver(players, sol, RoleKeys);
    if r.Some? then CostFillsSlots(players, sol); r else r
  }

  lemma CostFillsSlots(players: seq<Player>, sol: seq<Entry>)
    requires CostOver(players, sol, RoleKeys).Some?
    ensures forall s: Slot :: s in SlotsOf(sol)
  {
    RoleKeysDistinct();
    forall s: Slot
      ensures s in SlotsOf(sol)
    {
      var role := s.role;
      assert role in RoleKeys;
      var k :| 0 <= k < |RoleKeys| && RoleKeys[k] == role;
      assert RoleGap(players, sol, role).Some?;
      if s.team == A {
        assert s == Slot(A, role);
      } else {
        assert s == Slot(B, role);
      }
    }
  }

  /** The cost of a well-formed solution. */
  function Cost(players: seq<Player>, sol: seq<Entry>): nat
    requires Wellformed(players, sol)
  {
    ComputeCost(players, sol).value
  }

  /**
   In a valid solution the gap for a role is taken between the unique
   entries that hold that role on team A and on team B, whatever their
   positions.
   */
  lemma RoleGapOfValid(players: seq<Player>, sol: seq<Entry>, role: Role, i: nat, j: nat)
    requires ValidSolution(sol) && |players| == PlayerCount
    requires i < |sol| && sol[i].SlotOf() == Slot(A, role)
    requires j < |sol| && sol[j].SlotOf() == Slot(B, role)
    requires sol[i].playerIndex < |players| && sol[j].playerIndex < |players|
    ensures RoleGap(players, sol, role)
         == Some(Abs(players[sol[i].playerIndex].ratings.Of(role) - players[sol[j].playerIndex].ratings.Of(role)))
  {
    ValidIsWellformed(players, sol);
    AllSlotsDistinct();
    var a := FindSlot(sol, Slot(A, role), 0).value;
    var b := FindSlot(sol, Slot(B, role), 0).value;
    UniqueSlot(sol, a, i);
    UniqueSlot(sol, b, j);
  }

  /** In a valid solution no two entries share a slot. */
  lemma UniqueSlot(sol: seq<Entry>, i: nat, j: nat)
    requires ValidSolution(sol)
    requires i < |sol| && j < |sol| && sol[i].SlotOf() == sol[j].SlotOf()
    ensures i == j
  {
    if i != j {
      var s := SlotsOf(sol);
      if i < j { TwoOccurrences(s, i, j); } else { TwoOccurrences(s, j, i); }
      AllSlotsDistinct();
      DistinctCount(AllSlots, s[i]);
      assert false;
    }
  }

  lemma ValidIsWellformed(players: seq<Player>, sol: seq<Entry>)
    requires ValidSolution(sol) && |players| == PlayerCount
    ensures Wellformed(players, sol)
  {
    AllSlotsDistinct();
    PermutationKeepsMembers(SlotsOf(sol), AllSlots);
    PermutationKeepsMembers(PlayerIndices(sol), Range(PlayerCount));
    forall i | 0 <= i < |sol|
      ensures sol[i].playerIndex < |players|
    {
      assert PlayerIndices(sol)[i] in Range(PlayerCount);
    }
  }

  lemma ValidHasCost(players: seq<Player>, sol: seq<Entry>)
    ensures ValidSolution(sol) && |players| == PlayerCount ==> ComputeCost(players, sol).Some?
  {
    if ValidSolution(sol) && |players| == PlayerCount {
      ValidIsWellformed(players, sol);
    }
  }

  lemma {:induction false} CostOverZero(players: seq<Player>, sol: seq<Entry>, roles: seq<Role>)
    requires forall i, j, role :: 0 <= i < |players| && 0 <= j < |players| ==>
      players[i].ratings.Of(role) == players[j].ratings.Of(role)
    requires CostOver(players, sol, roles).Some?
    ensures CostOver(players, sol, roles).value == 0
  {
    if |roles| > 0 {
      CostOverZero(players, sol, roles[1..]);
    }
  }

  /** When every player has the same rating for each role, any solution costs 0. */
  lemma CostZeroWhenRatingsEqual(players: seq<Player>, sol: seq<Entry>)
    requires forall i, j, role :: 0 <= i < |players| && 0 <= j < |players| ==>
      players[i].ratings.Of(role) == players[j].ratings.Of(role)
    requires ComputeCost(players, sol).Some?
    ensures ComputeCost(players, sol).value == 0
  {
    CostOverZero(players, sol, RoleKeys);
  }

  // ---------------------------------------------------------------------
  // Local search

  lemma SwapKeepsWellformed(players: seq<Player>, sol: seq<Entry>, i: nat, j: nat)
    requires Wellformed(players, sol) && i < |sol| && j < |sol|
    ensures Wellformed(players, Swap(sol, i, j))
  {
    var t := Swap(sol, i, j);
    SwapIsPermutation(sol, i, j);
    var fs := (e: Entry) => e.SlotOf();
    MapKeepsPermutation(fs, t, sol);
    assert SlotsOf(t) == MapSeq(fs, t);
    assert SlotsOf(sol) == MapSeq(fs, sol);
    PermutationKeepsMembers(SlotsOf(t), SlotsOf(sol));
  }

  /** Cost of the candidate that exchanges the whole entries at `p` and `q`. */
  function SwapCost(players: seq<Player>, sol: seq<Entry>, p: nat, q: nat): nat
    requires Wellformed(players, sol) && p < |sol| && q < |sol|
  {
    SwapKeepsWellformed(players, sol, p, q);
    Cost(players, Swap(sol, p, q))
  }

  /** Pair (p, q) comes no earlier than (i, j) in the scan order. */
  predicate AtOrAfter(p: nat, q: nat, i: nat, j: nat) {
    p > i || (p == i && q >= j)
  }

  /** Pair (p, q) comes strictly before (i, j) in the scan order. */
  predicate Before(p: nat, q: nat, i: nat, j: nat) {
    p < i || (p == i && q < j)
  }

  /**
   The nested `for i / for j > i` scan of `optimize`, resumed at (i, j):
   the first pair whose swap costs strictly less than `best`.
   */
  function Scan(players: seq<Player>, sol: seq<Entry>, best: nat, i: nat, j: nat): (r: Option<(nat, nat)>)
    requires Wellformed(players, sol) && i < j
    ensures r.Some? ==> var (p, q) := r.value;
      && p < q < |sol| && AtOrAfter(p, q, i, j) && SwapCost(players, sol, p, q) < best
      && forall p', q' :: 0 <= p' < q' < |sol| && AtOrAfter(p', q', i, j) && Before(p', q', p, q) ==>
           SwapCost(players, sol, p', q') >= best
    ensures r.None? ==>
      forall p, q :: 0 <= p < q < |sol| && AtOrAfter(p, q, i, j) ==> SwapCost(players, sol, p, q) >= best
    decreases |sol| - i, |sol| - j
  {
    if i >= |sol| then None
    else if j >= |sol| then Scan(players, sol, best, i + 1, i + 2)
    else if SwapCost(players, sol, i, j) < best then Some((i, j))
    else Scan(players, sol, best, i, j + 1)
  }

  /** No exchange of two entries lowers the cost. */
  predicate LocalOptimum(players: seq<Player>, sol: seq<Entry>)
    requires Wellformed(players, sol)
  {
    forall p, q :: 0 <= p < q < |sol| ==> SwapCost(players, sol, p, q) >= Cost(players, sol)
  }

  /**
   `optimize`: adopt the first strictly improving swap and rescan from the
   start, until a full scan finds none. Returns the solution and its cost.
   Each adopted swap lowers the cost, a natural number, so this ends.
   */
  function Optimize(players: seq<Player>, sol: seq<Entry>): (r: (seq<Entry>, nat))
    requires Wellformed(players, sol)
    ensures Wellformed(players, r.0)
    ensures multiset(r.0) == multiset(sol)
    ensures r.1 == Cost(players, r.0)
    ensures r.1 <= Cost(players, sol)
    ensures LocalOptimum(players, r.0)
    decreases Cost(players, sol)
  {
    var c := Cost(players, sol);
    match Scan(players, sol, c, 0, 1)
    case None => (sol, c)
    case Some((i, j)) =>
      SwapKeepsWellformed(players, sol, i, j);
      SwapIsPermutation(sol, i, j);
      Optimize(players, Swap(sol, i, j))
  }

  /** Swapping whole entries never breaks the solution invariant. */
  lemma OptimizeKeepsValid(players: seq<Player>, sol: seq<Entry>)
    requires ValidSolution(sol) && |players| == PlayerCount
    ensures Wellformed(players, sol)
    ensures ValidSolution(Optimize(players, sol).0)
  {
    ValidIsWellformed(players, sol);
    ValidityIgnoresOrder(Optimize(players, sol).0, sol);
  }

  /** Optimizing a local optimum changes nothing. */
  lemma OptimizeAtOptimum(players: seq<Player>, sol: seq<Entry>)
    requires Wellformed(players, sol) && LocalOptimum(players, sol)
    ensures Optimize(players, sol) == (sol, Cost(players, sol))
  {
    var c := Cost(players, sol);
    match Scan(players, sol, c, 0, 1)
    case None =>
    case Some(_) =>
      assert false;
  }

  /** Re-optimizing the result of `optimize` returns it unchanged. */
  lemma OptimizeIdempotent(players: seq<Player>, sol: seq<Entry>)
    requires Wellformed(players, sol)
    ensures var r := Optimize(players, sol); Optimize(players, r.0) == r
  {
    var r := Optimize(players, sol);
    OptimizeAtOptimum(players, r.0);
  }

  /** Where entry `k` lands once the entries at `p` and `q` are exchanged. */
  function SwappedPosition(k: nat, p: nat, q: nat): nat {
    if k == p then q else if k == q then p else k
  }

  /**
   Exchanging two whole entries moves each (player, team, role) record to
   another position but keeps it intact, so the gap of every role is the
   same before and after.
   */
  lemma SwapKeepsRoleGap(players: seq<Player>, sol: seq<Entry>, p: nat, q: nat, role: Role)
    requires ValidSolution(sol) && |players| == PlayerCount && p < |sol| && q < |sol|
    ensures RoleGap(players, Swap(sol, p, q), role) == RoleGap(players, sol, role)
  {
    var t := Swap(sol, p, q);
    ValidIsWellformed(players, sol);
    SwapIsPermutation(sol, p, q);
    ValidityIgnoresOrder(t, sol);
    ValidIsWellformed(players, t);
    assert Slot(A, role) in SlotsOf(sol) && Slot(B, role) in SlotsOf(sol);
    var i :| 0 <= i < |sol| && SlotsOf(sol)[i] == Slot(A, role);
    var j :| 0 <= j < |sol| && SlotsOf(sol)[j] == Slot(B, role);
    RoleGapOfValid(players, sol, role, i, j);
    var i', j' := SwappedPosition(i, p, q), SwappedPosition(j, p, q);
    assert t[i'] == sol[i] && t[j'] == sol[j];
    RoleGapOfValid(players, t, role, i', j');
  }

  lemma {:induction false} SwapKeepsCostOver(players: seq<Player>, sol: seq<Entry>, p: nat, q: nat, roles: seq<Role>)
    requires ValidSolution(sol) && |players| == PlayerCount && p < |sol| && q < |sol|
    ensures CostOver(players, Swap(sol, p, q), roles) == CostOver(players, sol, roles)
  {
    if |roles| > 0 {
      SwapKeepsRoleGap(players, sol, p, q, roles[0]);
      SwapKeepsCostOver(players, sol, p, q, roles[1..]);
    }
  }

  /** In a valid solution no exchange of two entries changes the cost. */
  lemma SwapKeepsCost(players: seq<Player>, sol: seq<Entry>, p: nat, q: nat)
    requires ValidSolution(sol) && |players| == PlayerCount && p < |sol| && q < |sol|
    ensures Wellformed(players, sol)
    ensures SwapCost(players, sol, p, q) == Cost(players, sol)
  {
    ValidIsWellformed(players, sol);
    SwapKeepsCostOver(players, sol, p, q, RoleKeys);
  }

  /**
   Hence `optimize` never finds a strictly cheaper candidate: a valid
   solution comes back unchanged, with its own cost.
   */
  lemma OptimizeChangesNothing(players: seq<Player>, sol: seq<Entry>)
    requires ValidSolution(sol) && |players| == PlayerCount
    ensures Wellformed(players, sol)
    ensures Optimize(players, sol) == (sol, Cost(players, sol))
  {
    ValidIsWellformed(players, sol);
    forall p, q | 0 <= p < q < |sol|
      ensures SwapCost(players, sol, p, q) >= Cost(players, sol)
    {
      SwapKeepsCost(players, sol, p, q);
    }
    OptimizeAtOptimum(players, sol);
  }

  // ---------------------------------------------------------------------
  // Random initial solution

  /** `slots` without every occurrence of `x`, in order. */
  function DropSlot(slots: seq<Slot>, x: Slot): (r: seq<Slot>)
    ensures forall y: Slot :: y in r <==> y in slots && y != x
    ensures multiset(r) == multiset(slots)[x := 0]
    ensures IsSubseq(r, slots)
  {
    if |slots| == 0 then []
    else
      var rest := DropSlot(slots[1..], x);
      assert slots == [slots[0]] + slots[1..];
      if slots[0] == x then rest else [slots[0]] + rest
  }

  /**
   `remainingSlots`: the nine (team, role) pairs other than the seed's
   (team A, `seedRole`), team A first, each team in `ROLE_KEYS` order.
   */
  function RemainingSlots(seedRole: Role): (r: seq<Slot>)
    ensures forall s: Slot :: s in r <==> s != Slot(A, seedRole)
    ensures IsSubseq(r, AllSlots)
  {
    AllSlotsDistinct();
    DropSlot(AllSlots, Slot(A, seedRole))
  }

  lemma RemainingSlotsFacts(seedRole: Role)
    ensures IsSubseq(RemainingSlots(seedRole), AllSlots)
    ensures |RemainingSlots(seedRole)| == PlayerCount - 1
    ensures Distinct(RemainingSlots(seedRole))
    ensures Slot(A, seedRole) !in RemainingSlots(seedRole)
    ensures multiset([Slot(A, seedRole)] + RemainingSlots(seedRole)) == multiset(AllSlots)
  {
    var x := Slot(A, seedRole);
    var rest := RemainingSlots(seedRole);
    AllSlotsDistinct();
    DistinctCount(AllSlots, x);
    assert x in AllSlots;
    assert x in multiset(AllSlots);
    assert multiset(AllSlots)[x] == 1;
    assert multiset([x] + rest) == multiset(AllSlots);
    assert |multiset(AllSlots)| == |AllSlots|;
    forall i, j | 0 <= i < j < |rest|
      ensures rest[i] != rest[j]
    {
      if rest[i] == rest[j] {
        TwoOccurrences(rest, i, j);
        DistinctCount(AllSlots, rest[i]);
        assert false;
      }
    }
  }

  /** Walk `players` onto `slots` in order (the `forEach` of `randomSolution`). */
  function Place(players: seq<nat>, slots: seq<Slot>): (r: seq<Entry>)
    requires |players| <= |slots|
    ensures |r| == |players|
    ensures PlayerIndices(r) == players
    ensures SlotsOf(r) == slots[..|players|]
  {
    seq(|players|, i requires 0 <= i < |players| => Entry(players[i], slots[i].team, slots[i].role))
  }

  /** The three random streams one restart consumes: player order, role order, the rest's order. */
  datatype RestartDraws = RestartDraws(playerDraws: seq<nat>, roleDraws: seq<nat>, restDraws: seq<nat>)

  /**
   `randomSolution` for `n` players: a shuffled player seeds team A in
   the first shuffled role, and the other players, shuffled again, fill
   the remaining slots in their fixed order. None where the source fails:
   no players, or more players than slots.
   */
  function RandomSolution(n: nat, d: RestartDraws): (r: Option<seq<Entry>>)
    ensures r.Some? <==> 1 <= n <= PlayerCount
    ensures r.Some? ==> |r.value| == n
    ensures r.Some? ==> multiset(PlayerIndices(r.value)) == multiset(Range(n))
    ensures r.Some? ==> r.value[0].SlotOf() == Slot(A, Shuffle(RoleKeys, d.roleDraws)[0])
    ensures r.Some? ==> Distinct(SlotsOf(r.value))
    ensures r.Some? && n == PlayerCount ==> ValidSolution(r.value)
  {
    if n == 0 || n > PlayerCount then None
    else
      var indices := Shuffle(Range(n), d.playerDraws);
      var roles := Shuffle(RoleKeys, d.roleDraws);
      var seed := Entry(indices[0], A, roles[0]);
      var slots := RemainingSlots(roles[0]);
      RemainingSlotsFacts(roles[0]);
      var rest := Shuffle(indices[1..], d.restDraws);
      var sol := [seed] + Place(rest, slots);
      RandomSolutionFacts(n, indices, rest, seed, slots, sol);
      Some(sol)
  }

  lemma RandomSolutionFacts(n: nat, indices: seq<nat>, rest: seq<nat>, seed: Entry, slots: seq<Slot>, sol: seq<Entry>)
    requires 1 <= n <= PlayerCount
    requires multiset(indices) == multiset(Range(n)) && |indices| == n
    requires multiset(rest) == multiset(indices[1..]) && |rest| == n - 1
    requires seed.playerIndex == indices[0]
    requires |slots| == PlayerCount - 1 && Distinct(slots) && seed.SlotOf() !in slots
    requires multiset([seed.SlotOf()] + slots) == multiset(AllSlots)
    requires sol == [seed] + Place(rest, slots)
    ensures multiset(PlayerIndices(sol)) == multiset(Range(n))
    ensures Distinct(SlotsOf(sol))
    ensures n == PlayerCount ==> ValidSolution(sol)
  {
    assert |rest| == n - 1;
    assert PlayerIndices(sol) == [indices[0]] + rest;
    assert indices == [indices[0]] + indices[1..];
    assert SlotsOf(sol) == [seed.SlotOf()] + slots[..n - 1];
    var ss := SlotsOf(sol);
    forall i, j | 0 <= i < j < |ss|
      ensures ss[i] != ss[j]
    {
      if i == 0 {
        assert ss[j] == slots[j - 1];
      } else {
        assert ss[i] == slots[i - 1] && ss[j] == slots[j - 1];
      }
    }
    if n == PlayerCount {
      assert slots[..n - 1] == slots;
    }
  }

  // ---------------------------------------------------------------------
  // Result formatting

  /** Per-team role maps: each role mapped to the full player record. */
  datatype Teams = Teams(teamA: map<Role, Player>, teamB: map<Role, Player>)
  {
    function Side(t: Team): map<Role, Player> {
      if t == A then teamA else teamB
    }
  }

  /** No later entry sits in the same slot as entry `i`. */
  predicate LastInSlot(sol: seq<Entry>, i: nat)
    requires i < |sol|
  {
    forall k :: i < k < |sol| ==> sol[k].SlotOf() != sol[i].SlotOf()
  }

  /** Entry `e`'s player is what the team maps hold for its (team, role). */
  predicate Holds(t: Teams, e: Entry, players: seq<Player>)
    requires e.playerIndex < |players|
  {
    e.role in t.Side(e.team) && t.Side(e.team)[e.role] == players[e.playerIndex]
  }

  /**
   `formatResult`: walk the entries in order, writing each player into its
   team's map under its role; a later entry for the same slot overwrites
   an earlier one.
   */
  function FormatResult(players: seq<Player>, sol: seq<Entry>): (r: Teams)
    requires forall i :: 0 <= i < |sol| ==> sol[i].playerIndex < |players|
    ensures forall role: Role :: role in r.teamA <==> Slot(A, role) in SlotsOf(sol)
    ensures forall role: Role :: role in r.teamB <==> Slot(B, role) in SlotsOf(sol)
    decreases |sol|
  {
    if |sol| == 0 then Teams(map[], map[])
    else
      var init := sol[..|sol| - 1];
      var t := FormatResult(players, init);
      var e := sol[|sol| - 1];
      var p := players[e.playerIndex];
      LastSlot(sol);
      if e.team == A then t.(teamA := t.teamA[e.role := p]) else t.(teamB := t.teamB[e.role := p])
  }

  /** The slots of a non-empty solution are those of all but its last entry, and the last entry's. */
  lemma LastSlot(sol: seq<Entry>)
    requires |sol| > 0
    ensures forall x: Slot :: x in SlotsOf(sol) <==> x in SlotsOf(sol[..|sol| - 1]) || x == sol[|sol| - 1].SlotOf()
  {
    assert SlotsOf(sol) == SlotsOf(sol[..|sol| - 1]) + [sol[|sol| - 1].SlotOf()];
  }

  /** Each role of a team's map holds the player of the last entry for that (team, role). */
  lemma {:induction false} FormatPlaces(players: seq<Player>, sol: seq<Entry>)
    requires forall i :: 0 <= i < |sol| ==> sol[i].playerIndex < |players|
    ensures forall i :: 0 <= i < |sol| && LastInSlot(sol, i) ==> Holds(FormatResult(players, sol), sol[i], players)
    decreases |sol|
  {
    if |sol| > 0 {
      var init := sol[..|sol| - 1];
      FormatPlaces(players, init);
      var e := sol[|sol| - 1];
      var r := FormatResult(players, sol);
      var t := FormatResult(players, init);
      forall i | 0 <= i < |sol| && LastInSlot(sol, i)
        ensures Holds(r, sol[i], players)
      {
        if i < |sol| - 1 {
          assert init[i] == sol[i];
          forall k | i < k < |init|
            ensures init[k].SlotOf() != init[i].SlotOf()
          {
            assert init[k] == sol[k];
          }
          assert Holds(t, init[i], players);
          assert sol[i].SlotOf() != e.SlotOf();
        }
      }
    }
  }

  /**
   For a valid solution both maps cover all five roles, and each role maps
   to the player of the unique entry holding that (team, role).
   */
  lemma FormatValid(players: seq<Player>, sol: seq<Entry>)
    requires ValidSolution(sol) && |players| == PlayerCount
    ensures forall i :: 0 <= i < |sol| ==> sol[i].playerIndex < |players|
    ensures forall role: Role :: role in FormatResult(players, sol).teamA && role in FormatResult(players, sol).teamB
    ensures forall i :: 0 <= i < |sol| ==> Holds(FormatResult(players, sol), sol[i], players)
  {
    ValidIsWellformed(players, sol);
    FormatPlaces(players, sol);
    AllSlotsDistinct();
    forall i | 0 <= i < |sol|
      ensures LastInSlot(sol, i)
    {
      forall k | i < k < |sol|
        ensures sol[k].SlotOf() != sol[i].SlotOf()
      {
        if sol[k].SlotOf() == sol[i].SlotOf() {
          UniqueSlot(sol, i, k);
        }
      }
    }
    forall role: Role
      ensures Slot(A, role) in SlotsOf(sol) && Slot(B, role) in SlotsOf(sol)
    {
      assert Slot(A, role) in AllSlots && Slot(B, role) in AllSlots;
    }
  }

  // ---------------------------------------------------------------------
  // Restart driver

  /**
   One restart: a random solution, optimized; None where the source fails.
   A result reorders the random solution's entries and costs no more.
   */
  function Restart(players: seq<Player>, d: RestartDraws): (r: Option<(seq<Entry>, nat)>)
    ensures r.Some? ==> RandomSolution(|players|, d).Some?
    ensures r.Some? ==> var init := RandomSolution(|players|, d).value;
      && multiset(r.value.0) == multiset(init)
      && ComputeCost(players, init).Some? && r.value.1 <= ComputeCost(players, init).value
      && ComputeCost(players, r.value.0) == Some(r.value.1)
  {
    match RandomSolution(|players|, d)
    case None => None
    case Some(init) =>
      if ComputeCost(players, init).None? then None
      else
        RandomIsWellformed(players, init);
        Some(Optimize(players, init))
  }

  lemma RandomIsWellformed(players: seq<Player>, init: seq<Entry>)
    requires multiset(PlayerIndices(init)) == multiset(Range(|players|))
    requires ComputeCost(players, init).Some?
    ensures Wellformed(players, init)
  {
    assert forall s: Slot :: s in SlotsOf(init);
    forall i | 0 <= i < |init|
      ensures init[i].playerIndex < |players|
    {
      assert PlayerIndices(init)[i] in multiset(PlayerIndices(init));
      assert PlayerIndices(init)[i] in Range(|players|);
    }
  }

  /**
   A restart succeeds exactly for ten players, and then yields a valid
   solution together with its cost.
   */
  lemma RestartFacts(players: seq<Player>, d: RestartDraws)
    ensures Restart(players, d).Some? <==> |players| == PlayerCount
    ensures Restart(players, d).Some? ==>
      && ValidSolution(Restart(players, d).value.0)
      && Restart(players, d).value.1 == ComputeCost(players, Restart(players, d).value.0).value
  {
    if |players| == PlayerCount {
      RestartSucceeds(players, d);
    } else {
      RestartFails(players, d);
    }
  }

  lemma RestartSucceeds(players: seq<Player>, d: RestartDraws)
    requires |players| == PlayerCount
    ensures Restart(players, d).Some?
    ensures ValidSolution(Restart(players, d).value.0)
    ensures Restart(players, d).value.1 == ComputeCost(players, Restart(players, d).value.0).value
  {
    var init := RandomSolution(|players|, d).value;
    ValidHasCost(players, init);
    OptimizeKeepsValid(players, init);
    assert Restart(players, d) == Some(Optimize(players, init));
  }

  lemma RestartFails(players: seq<Player>, d: RestartDraws)
    requires |players| != PlayerCount
    ensures Restart(players, d).None?
  {
    var rs := RandomSolution(|players|, d);
    if rs.Some? && ComputeCost(players, rs.value).Some? {
      SlotsFilledNeedTen(players, rs.value);
      assert false;
    }
  }

  /** A solution with fewer than ten entries leaves some slot empty, so its cost fails. */
  lemma SlotsFilledNeedTen(players: seq<Player>, sol: seq<Entry>)
    requires ComputeCost(players, sol).Some?
    ensures |sol| >= PlayerCount
  {
    AllSlotsDistinct();
    forall i | 0 <= i < |AllSlots|
      ensures AllSlots[i] in SlotsOf(sol)
    {
    }
    DistinctSubsetSize(AllSlots, SlotsOf(sol));
  }

  lemma {:induction false} DistinctSubsetSize(a: seq<Slot>, b: seq<Slot>)
    requires Distinct(a)
    requires forall i :: 0 <= i < |a| ==> a[i] in b
    ensures |a| <= |b|
    decreases |a|
  {
    if |a| > 0 {
      var k :| 0 <= k < |b| && b[k] == a[0];
      var b' := b[..k] + b[k+1..];
      forall i | 0 <= i < |a[1..]|
        ensures a[1..][i] in b'
      {
        var x := a[1..][i];
        assert x == a[i + 1] && x != a[0];
        var m :| 0 <= m < |b| && b[m] == x;
        if m < k { assert b'[m] == x; } else { assert b'[m - 1] == x; }
      }
      DistinctSubsetSize(a[1..], b');
    }
  }

  /** `config.iterations ?? 10`; the loop runs that many times, none if it is not positive. */
  function IterationCount(iterations: Option<int>): (r: nat)
    ensures iterations.None? ==> r == 10
    ensures iterations.Some? ==> r == if iterations.value < 0 then 0 else iterations.value
  {
    match iterations
    case None => 10
    case Some(k) => if k < 0 then 0 else k
  }

  function DrawsFor(restarts: seq<RestartDraws>, k: nat): RestartDraws {
    if k < |restarts| then restarts[k] else RestartDraws([], [], [])
  }

  /** Solution and cost reached by restart `k` of ten players. */
  function RunResult(players: seq<Player>, restarts: seq<RestartDraws>, k: nat): (r: (seq<Entry>, nat))
    requires |players| == PlayerCount
    ensures ValidSolution(r.0)
    ensures forall i :: 0 <= i < |r.0| ==> r.0[i].playerIndex < |players|
    ensures ComputeCost(players, r.0) == Some(r.1)
  {
    RestartSucceeds(players, DrawsFor(restarts, k));
    var r := Restart(players, DrawsFor(restarts, k)).value;
    ValidIsWellformed(players, r.0);
    r
  }

  /**
   Since `optimize` hands a valid solution back unchanged, each restart of
   ten players yields exactly its random solution, at that solution's cost.
   */
  lemma RunIsRandomSolution(players: seq<Player>, restarts: seq<RestartDraws>, k: nat)
    requires |players| == PlayerCount
    ensures RandomSolution(PlayerCount, DrawsFor(restarts, k)).Some?
    ensures RunResult(players, restarts, k).0 == RandomSolution(PlayerCount, DrawsFor(restarts, k)).value
    ensures ComputeCost(players, RunResult(players, restarts, k).0) == Some(RunResult(players, restarts, k).1)
  {
    var init := RandomSolution(PlayerCount, DrawsFor(restarts, k)).value;
    ValidHasCost(players, init);
    OptimizeChangesNothing(players, init);
  }

  function RunCost(players: seq<Player>, restarts: seq<RestartDraws>, k: nat): nat
    requires |players| == PlayerCount
  {
    RunResult(players, restarts, k).1
  }

  /**
   Restart `w` of the first `count` has the lowest cost, and every earlier
   restart cost strictly more.
   */
  predicate Winner(players: seq<Player>, restarts: seq<RestartDraws>, count: nat, w: nat)
    requires |players| == PlayerCount
  {
    && w < count
    && (forall k :: 0 <= k < count ==> RunCost(players, restarts, w) <= RunCost(players, restarts, k))
    && (forall k :: 0 <= k < w ==> RunCost(players, restarts, w) < RunCost(players, restarts, k))
  }

  lemma ExtendCosts(players: seq<Player>, restarts: seq<RestartDraws>, costs: seq<nat>, c: nat)
    requires |players| == PlayerCount
    requires forall k :: 0 <= k < |costs| ==> costs[k] == RunCost(players, restarts, k)
    requires c == RunCost(players, restarts, |costs|)
    ensures forall k :: 0 <= k < |costs| + 1 ==> (costs + [c])[k] == RunCost(players, restarts, k)
  {
  }

  lemma BestIsWinner(players: seq<Player>, restarts: seq<RestartDraws>, costs: seq<nat>, w: nat)
    requires |players| == PlayerCount
    requires forall k :: 0 <= k < |costs| ==> costs[k] == RunCost(players, restarts, k)
    requires w < |costs|
    requires forall k :: 0 <= k < |costs| ==> costs[w] <= costs[k]
    requires forall k :: 0 <= k < w ==> costs[w] < costs[k]
    ensures Winner(players, restarts, |costs|, w)
  {
  }

  /**
   The keep-the-best loop of `generateOptimalTeams`: a later result
   replaces the best only when strictly cheaper.
   */
  method BestIndex(costs: seq<nat>) returns (w: nat)
    requires |costs| > 0
    ensures w < |costs|
    ensures forall k :: 0 <= k < |costs| ==> costs[w] <= costs[k]
    ensures forall k :: 0 <= k < w ==> costs[w] < costs[k]
  {
    w := 0;
    var k := 1;
    while k < |costs|
      invariant w < k <= |costs|
      invariant forall j :: 0 <= j < k ==> costs[w] <= costs[j]
      invariant forall j :: 0 <= j < w ==> costs[w] < costs[j]
    {
      if costs[k] < costs[w] {
        w := k;
      }
      k := k + 1;
    }
  }

  /**
   `generateOptimalTeams`: run the restarts, keep the earliest cheapest
   result, and format it. None where the source fails: no restart at all,
   or a player list other than ten.
   */
  method GenerateOptimalTeams(players: seq<Player>, iterations: Option<int>, restarts: seq<RestartDraws>)
    returns (r: Option<Teams>)
    ensures r.Some? <==> |players| == PlayerCount && IterationCount(iterations) >= 1
    ensures r.Some? ==> |players| == PlayerCount && exists w :: (0 <= w < IterationCount(iterations)
      && Winner(players, restarts, IterationCount(iterations), w)
      && r.value == FormatResult(players, RunResult(players, restarts, w).0))
  {
    var count := IterationCount(iterations);
    if count == 0 {
      return None;
    }
    if |players| != PlayerCount {
      return None;
    }
    var costs: seq<nat> := [];
    while |costs| < count
      invariant |costs| <= count
      invariant forall k :: 0 <= k < |costs| ==> costs[k] == RunCost(players, restarts, k)
    {
      var c := RunCost(players, restarts, |costs|);
      ExtendCosts(players, restarts, costs, c);
      costs := costs + [c];
    }
    var w := BestIndex(costs);
    BestIsWinner(players, restarts, costs, w);
    var teams := FormatResult(players, RunResult(players, restarts, w).0);
    WinnerWitness(players, restarts, count, w, teams);
    r := Some(teams);
  }

  lemma WinnerWitness(players: seq<Player>, restarts: seq<RestartDraws>, count: nat, w: nat, teams: Teams)
    requires |players| == PlayerCount && Winner(players, restarts, count, w)
    requires teams == FormatResult(players, RunResult(players, restarts, w).0)
    ensures exists w' :: (0 <= w' < count && Winner(players, restarts, count, w')
      && teams == FormatResult(players, RunResult(players, restarts, w').0))
  {
  }
}
