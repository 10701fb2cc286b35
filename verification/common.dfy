/**
 Shared vocabulary of the team balancer: the five roles, the two teams, a
 player's role ratings, the slot entries a solution is made of, the explicit
 random-draw oracle that replaces `Math.random`, and the Fisher-Yates shuffle
 both algorithm files use.
 */
module Common {

  datatype Option<+T> = None | Some(value: T)

  /** The five roles, in the fixed order of `ROLE_KEYS`. */
  datatype Role = Top | Jun | Mid | Adc | Sup

  const RoleKeys: seq<Role> := [Top, Jun, Mid, Adc, Sup]

  /** Number of players on a team; equals the number of roles. */
  const TeamSize: nat := 5

  /** Number of players a full draw needs. */
  const PlayerCount: nat := 10

  datatype Team = A | B

  /** One rating per role; the record shape makes a missing role impossible. */
  datatype Ratings = Ratings(top: int, jun: int, mid: int, adc: int, sup: int)
  {
    function Of(r: Role): int {
      match r
      case Top => top
      case Jun => jun
      case Mid => mid
      case Adc => adc
      case Sup => sup
    }

    /** Sum of all five rating values (`Object.values(ratings)` summed). */
    function Total(): int {
      top + jun + mid + adc + sup
    }
  }

  datatype Player = Player(name: string, ratings: Ratings)

  /** A (team, role) pair: one of the ten places of a draw. */
  datatype Slot = Slot(team: Team, role: Role)

  /** A solution entry: which player sits in which (team, role). */
  datatype Entry = Entry(playerIndex: nat, team: Team, role: Role)
  {
    function SlotOf(): Slot { Slot(team, role) }
  }

  function Abs(x: int): (r: nat)
    ensures r == x || r == -x
  {
    if x < 0 then -x else x
  }

  /** The indices 0, 1, ..., n-1 (`players.map((_, i) => i)`). */
  function Range(n: nat): (r: seq<nat>)
    ensures |r| == n
    ensures forall i :: 0 <= i < n ==> r[i] == i
  {
    seq(n, i => i)
  }

  /** The indices are distinct and are exactly the naturals below n. */
  lemma RangeFacts(n: nat)
    ensures Distinct(Range(n))
    ensures forall x: nat :: x in Range(n) <==> x < n
  {
    forall x: nat | x < n
      ensures x in Range(n)
    {
      assert Range(n)[x] == x;
    }
    forall x | x in Range(n)
      ensures x < n
    {
      var i :| 0 <= i < n && Range(n)[i] == x;
    }
    forall i, j | 0 <= i < j < |Range(n)|
      ensures Range(n)[i] != Range(n)[j]
    {
    }
  }

  function SlotsOfTeam(t: Team, roles: seq<Role>): (r: seq<Slot>)
    ensures |r| == |roles|
    ensures forall i :: 0 <= i < |roles| ==> r[i] == Slot(t, roles[i])
  {
    seq(|roles|, i requires 0 <= i < |roles| => Slot(t, roles[i]))
  }

  /** The ten slots, team A first, each team in `ROLE_KEYS` order. */
  const AllSlots: seq<Slot> := SlotsOfTeam(A, RoleKeys) + SlotsOfTeam(B, RoleKeys)

  function PlayerIndices(sol: seq<Entry>): (r: seq<nat>)
    ensures |r| == |sol|
    ensures forall i :: 0 <= i < |sol| ==> r[i] == sol[i].playerIndex
  {
    seq(|sol|, i requires 0 <= i < |sol| => sol[i].playerIndex)
  }

  function SlotsOf(sol: seq<Entry>): (r: seq<Slot>)
    ensures |r| == |sol|
    ensures forall i :: 0 <= i < |sol| ==> r[i] == sol[i].SlotOf()
  {
    seq(|sol|, i requires 0 <= i < |sol| => sol[i].SlotOf())
  }

  /**
   The core invariant of a draw: ten entries, every player index 0..9
   exactly once and every (team, role) slot exactly once.
   */
  predicate ValidSolution(sol: seq<Entry>) {
    && |sol| == PlayerCount
    && multiset(PlayerIndices(sol)) == multiset(Range(PlayerCount))
    && multiset(SlotsOf(sol)) == multiset(AllSlots)
  }

  predicate Distinct<T(==)>(s: seq<T>) {
    forall i, j :: 0 <= i < j < |s| ==> s[i] != s[j]
  }

  predicate IsPermutationOf<T(==)>(s: seq<T>, t: seq<T>) {
    multiset(s) == multiset(t)
  }

  // ---------------------------------------------------------------------
  // Random draws

  /**
   The k-th draw of a stream, as an index below `bound`: it stands for
   `Math.floor(Math.random() * bound)`. An exhausted stream draws 0.
   */
  function Draw(draws: seq<nat>, k: nat, bound: nat): (r: nat)
    requires bound > 0
    ensures r < bound
  {
    if k < |draws| then draws[k] % bound else 0
  }

  /** A draw already below its bound is taken as it is. */
  lemma DrawExact(draws: seq<nat>, k: nat, bound: nat)
    requires k < |draws| && draws[k] < bound
    ensures Draw(draws, k, bound) == draws[k]
  {
  }

  function Swap<T>(s: seq<T>, i: nat, j: nat): (r: seq<T>)
    requires i < |s| && j < |s|
    ensures |r| == |s|
    ensures r[i] == s[j] && r[j] == s[i]
    ensures forall k :: 0 <= k < |s| && k != i && k != j ==> r[k] == s[k]
  {
    s[i := s[j]][j := s[i]]
  }

  lemma SwapIsPermutation<T>(s: seq<T>, i: nat, j: nat)
    requires i < |s| && j < |s|
    ensures multiset(Swap(s, i, j)) == multiset(s)
  {
  }

  /**
   The Fisher-Yates loop from position `i` down to 1: position i is swapped
   with the position drawn below i + 1.
   */
  function ShuffleDown<T>(a: seq<T>, draws: seq<nat>, i: nat): (r: seq<T>)
    requires i < |a|
    ensures |r| == |a|
    ensures multiset(r) == multiset(a)
    decreases i
  {
    if i == 0 then a
    else
      var j := Draw(draws, |a| - 1 - i, i + 1);
      SwapIsPermutation(a, i, j);
      ShuffleDown(Swap(a, i, j), draws, i - 1)
  }

  /** Fisher-Yates shuffle of a copy of `a`, driven by `draws`. */
  function Shuffle<T>(a: seq<T>, draws: seq<nat>): (r: seq<T>)
    ensures |r| == |a|
    ensures multiset(r) == multiset(a)
  {
    if |a| == 0 then a else ShuffleDown(a, draws, |a| - 1)
  }

  // ---------------------------------------------------------------------
  // Facts about permutations

  lemma PermutationKeepsMembers<T>(s: seq<T>, t: seq<T>)
    requires multiset(s) == multiset(t)
    ensures |s| == |t|
    ensures forall x :: x in s <==> x in t
  {
    assert |multiset(s)| == |multiset(t)|;
    forall x
      ensures x in s <==> x in t
    {
      assert x in s <==> x in multiset(s);
      assert x in t <==> x in multiset(t);
    }
  }

  lemma {:induction false} DistinctCount<T>(s: seq<T>, x: T)
    requires Distinct(s)
    ensures multiset(s)[x] <= 1
  {
    if |s| > 0 {
      assert s == [s[0]] + s[1..];
      assert Distinct(s[1..]);
      DistinctCount(s[1..], x);
      if x == s[0] {
        assert x !in s[1..];
      }
    }
  }

  lemma TwoOccurrences<T>(s: seq<T>, i: nat, j: nat)
    requires i < j < |s| && s[i] == s[j]
    ensures multiset(s)[s[i]] >= 2
  {
    assert s == s[..j] + [s[j]] + s[j+1..];
    assert s[i] in s[..j];
    assert multiset(s) == multiset(s[..j]) + multiset{s[j]} + multiset(s[j+1..]);
  }

  /** A permutation of a sequence without repeats has no repeats. */
  lemma PermutationKeepsDistinct<T>(s: seq<T>, t: seq<T>)
    requires multiset(s) == multiset(t) && Distinct(t)
    ensures Distinct(s)
  {
    forall i, j | 0 <= i < j < |s|
      ensures s[i] != s[j]
    {
      if s[i] == s[j] {
        TwoOccurrences(s, i, j);
        DistinctCount(t, s[i]);
        assert false;
      }
    }
  }

  function MapSeq<T, U>(f: T -> U, s: seq<T>): (r: seq<U>)
    ensures |r| == |s|
    ensures forall i :: 0 <= i < |s| ==> r[i] == f(s[i])
  {
    seq(|s|, i requires 0 <= i < |s| => f(s[i]))
  }

  /** Removing position k takes exactly one copy of t[k] out of the multiset. */
  lemma RemoveAt<T>(t: seq<T>, k: nat)
    requires k < |t|
    ensures multiset(t[..k] + t[k+1..]) == multiset(t) - multiset{t[k]}
  {
    assert t == t[..k] + [t[k]] + t[k+1..];
  }

  lemma MapRemoveAt<T, U>(f: T -> U, t: seq<T>, k: nat)
    requires k < |t|
    ensures multiset(MapSeq(f, t)) == multiset(MapSeq(f, t[..k] + t[k+1..])) + multiset{f(t[k])}
  {
    var m := MapSeq(f, t);
    assert MapSeq(f, t[..k] + t[k+1..]) == m[..k] + m[k+1..];
    RemoveAt(m, k);
  }

  /** Applying a function elementwise keeps two permutations permutations. */
  lemma {:induction false} MapKeepsPermutation<T, U>(f: T -> U, s: seq<T>, t: seq<T>)
    requires multiset(s) == multiset(t)
    ensures multiset(MapSeq(f, s)) == multiset(MapSeq(f, t))
    decreases |s|
  {
    if |s| > 0 {
      var k := MatchHead(s, t);
      var t' := t[..k] + t[k+1..];
      MapKeepsPermutation(f, s[1..], t');
      MapRemoveAt(f, t, k);
      MapHead(f, s);
    } else {
      assert |multiset(t)| == 0;
      assert t == [];
    }
  }

  /** A position of `t` holding the head of its permutation `s`; the rests are permutations too. */
  lemma MatchHead<T>(s: seq<T>, t: seq<T>) returns (k: nat)
    requires multiset(s) == multiset(t) && |s| > 0
    ensures k < |t| && t[k] == s[0]
    ensures multiset(s[1..]) == multiset(t[..k] + t[k+1..])
  {
    assert s[0] in multiset(s);
    assert s[0] in t;
    k :| 0 <= k < |t| && t[k] == s[0];
    RemoveAt(t, k);
    assert s == [s[0]] + s[1..];
  }

  lemma MapHead<T, U>(f: T -> U, s: seq<T>)
    requires |s| > 0
    ensures multiset(MapSeq(f, s)) == multiset{f(s[0])} + multiset(MapSeq(f, s[1..]))
  {
    assert MapSeq(f, s) == [f(s[0])] + MapSeq(f, s[1..]);
  }

  /** Validity is a property of the multiset of entries, not of their order. */
  lemma ValidityIgnoresOrder(s: seq<Entry>, t: seq<Entry>)
    requires multiset(s) == multiset(t) && ValidSolution(t)
    ensures ValidSolution(s)
  {
    PermutationKeepsMembers(s, t);
    var fi := (e: Entry) => e.playerIndex;
    var fs := (e: Entry) => e.SlotOf();
    MapKeepsPermutation(fi, s, t);
    MapKeepsPermutation(fs, s, t);
    assert PlayerIndices(s) == MapSeq(fi, s);
    assert PlayerIndices(t) == MapSeq(fi, t);
    assert SlotsOf(s) == MapSeq(fs, s);
    assert SlotsOf(t) == MapSeq(fs, t);
  }

  lemma RoleKeysDistinct()
    ensures Distinct(RoleKeys)
    ensures forall r: Role :: r in RoleKeys
  {
    forall r: Role
      ensures r in RoleKeys
    {
      match r
      case Top => assert RoleKeys[0] == r;
      case Jun => assert RoleKeys[1] == r;
      case Mid => assert RoleKeys[2] == r;
      case Adc => assert RoleKeys[3] == r;
      case Sup => assert RoleKeys[4] == r;
    }
  }

  lemma AllSlotsDistinct()
    ensures Distinct(AllSlots)
    ensures forall s: Slot :: s in AllSlots
  {
    forall s: Slot
      ensures s in AllSlots
    {
      var k := match s.role
        case Top => 0 case Jun => 1 case Mid => 2 case Adc => 3 case Sup => 4;
      if s.team == A {
        assert AllSlots[k] == s;
      } else {
        assert AllSlots[5 + k] == s;
      }
    }
  }
}
