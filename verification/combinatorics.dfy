/**
 The enumeration helpers both enumerating strategies share: k-subsets in
 order (`combinations`), all orderings (`permutations`), a stable sort by
 an integer key (`Array.prototype.sort` with a numeric comparator), the
 end index `slice(0, end)` uses, and order-keeping filters.
 */
module Combinatorics {
  import opened Common

  /** Binomial coefficient, by Pascal's rule. */
  function Choose(n: nat, k: nat): nat
    decreases n
  {
    if k == 0 then 1
    else if n < k then 0
    else Choose(n - 1, k - 1) + Choose(n - 1, k)
  }

  /** There is a k-subset exactly when k is at most n. */
  lemma {:induction false} ChoosePositive(n: nat, k: nat)
    ensures Choose(n, k) > 0 <==> k <= n
    decreases n
  {
    if k > 0 && n >= k {
      ChoosePositive(n - 1, k - 1);
    }
  }

  function Factorial(n: nat): nat {
    if n == 0 then 1 else n * Factorial(n - 1)
  }

  /** `c` can be obtained from `s` by deleting elements, keeping the order. */
  predicate IsSubseq<T(==)>(c: seq<T>, s: seq<T>)
    decreases |s|
  {
    if |c| == 0 then true
    else if |s| == 0 then false
    else (c[0] == s[0] && IsSubseq(c[1..], s[1..])) || IsSubseq(c, s[1..])
  }

  lemma {:induction false} SubseqFacts<T>(c: seq<T>, s: seq<T>)
    requires IsSubseq(c, s)
    ensures |c| <= |s|
    ensures forall x :: x in c ==> x in s
    decreases |s|
  {
    if |c| > 0 {
      if c[0] == s[0] && IsSubseq(c[1..], s[1..]) {
        SubseqFacts(c[1..], s[1..]);
        assert c == [c[0]] + c[1..];
      } else {
        SubseqFacts(c, s[1..]);
      }
    }
  }

  lemma SubseqOfDistinct<T>(c: seq<T>, s: seq<T>)
    requires IsSubseq(c, s) && Distinct(s)
    ensures Distinct(c)
    decreases |s|
  {
    if |c| > 0 {
      if c[0] == s[0] && IsSubseq(c[1..], s[1..]) {
        SubseqOfDistinct(c[1..], s[1..]);
        SubseqFacts(c[1..], s[1..]);
        assert c[0] !in s[1..];
        forall i, j | 0 <= i < j < |c|
          ensures c[i] != c[j]
        {
          if i == 0 {
            assert c[j] == c[1..][j - 1];
          } else {
            assert c[i] == c[1..][i - 1] && c[j] == c[1..][j - 1];
          }
        }
      } else {
        SubseqOfDistinct(c, s[1..]);
      }
    }
  }

  /** Put `x` in front of every list of `cs` (`cs.map(c => [x, ...c])`). */
  function PrependAll<T>(x: T, cs: seq<seq<T>>): (r: seq<seq<T>>)
    ensures |r| == |cs|
    ensures forall i :: 0 <= i < |cs| ==> r[i] == [x] + cs[i]
  {
    seq(|cs|, i requires 0 <= i < |cs| => [x] + cs[i])
  }

  /**
   Every way to pick `n` elements of `arr` keeping their order: first the
   ones that take `arr[0]`, then the ones that skip it.
   */
  function Combinations<T(==)>(arr: seq<T>, n: nat): (r: seq<seq<T>>)
    ensures |r| == Choose(|arr|, n)
    ensures forall i :: 0 <= i < |r| ==> |r[i]| == n && IsSubseq(r[i], arr)
    decreases |arr|
  {
    if n == 0 then [[]]
    else if |arr| < n then []
    else
      var rest := Combinations(arr[1..], n - 1);
      var withFirst := PrependAll(arr[0], rest);
      var withoutFirst := Combinations(arr[1..], n);
      forall i | 0 <= i < |withFirst|
        ensures |withFirst[i]| == n && IsSubseq(withFirst[i], arr)
      {
        assert withFirst[i][1..] == rest[i];
      }
      withFirst + withoutFirst
  }

  /** Every order-keeping choice of `n` elements is enumerated. */
  lemma {:induction false} CombinationsComplete<T>(arr: seq<T>, n: nat, c: seq<T>)
    requires IsSubseq(c, arr) && |c| == n
    ensures c in Combinations(arr, n)
    decreases |arr|
  {
    SubseqFacts(c, arr);
    if n == 0 {
      assert c == [];
    } else if c[0] == arr[0] && IsSubseq(c[1..], arr[1..]) {
      CombinationsComplete(arr[1..], n - 1, c[1..]);
      WithFirstListed(arr, n, c);
    } else {
      CombinationsComplete(arr[1..], n, c);
      WithoutFirstListed(arr, n, c);
    }
  }

  lemma WithFirstListed<T>(arr: seq<T>, n: nat, c: seq<T>)
    requires 0 < n <= |arr| && |c| == n
    requires c[0] == arr[0] && c[1..] in Combinations(arr[1..], n - 1)
    ensures c in Combinations(arr, n)
  {
    var rest := Combinations(arr[1..], n - 1);
    var withFirst := PrependAll(arr[0], rest);
    assert Combinations(arr, n) == withFirst + Combinations(arr[1..], n);
    var k :| 0 <= k < |rest| && rest[k] == c[1..];
    assert c == [c[0]] + c[1..];
    assert withFirst[k] == c;
  }

  lemma WithoutFirstListed<T>(arr: seq<T>, n: nat, c: seq<T>)
    requires 0 < n <= |arr|
    requires c in Combinations(arr[1..], n)
    ensures c in Combinations(arr, n)
  {
    var withFirst := PrependAll(arr[0], Combinations(arr[1..], n - 1));
    assert Combinations(arr, n) == withFirst + Combinations(arr[1..], n);
  }

  lemma DistinctConcat<T>(a: seq<T>, b: seq<T>)
    requires Distinct(a) && Distinct(b)
    requires forall i, j :: 0 <= i < |a| && 0 <= j < |b| ==> a[i] != b[j]
    ensures Distinct(a + b)
  {
  }

  /** Over elements without repeats, no combination is listed twice. */
  lemma {:induction false} CombinationsDistinct<T>(arr: seq<T>, n: nat)
    requires Distinct(arr)
    ensures Distinct(Combinations(arr, n))
    decreases |arr|
  {
    if n > 0 && |arr| >= n {
      assert Distinct(arr[1..]);
      CombinationsDistinct(arr[1..], n - 1);
      CombinationsDistinct(arr[1..], n);
      var rest := Combinations(arr[1..], n - 1);
      var withFirst := PrependAll(arr[0], rest);
      var withoutFirst := Combinations(arr[1..], n);
      forall i, j | 0 <= i < j < |withFirst|
        ensures withFirst[i] != withFirst[j]
      {
        assert withFirst[i][1..] == rest[i];
        assert withFirst[j][1..] == rest[j];
      }
      forall i, j | 0 <= i < |withFirst| && 0 <= j < |withoutFirst|
        ensures withFirst[i] != withoutFirst[j]
      {
        var v := withoutFirst[j];
        assert v in withoutFirst;
        SubseqFacts(v, arr[1..]);
        assert v[0] in v;
        assert arr[0] !in arr[1..];
      }
      DistinctConcat(withFirst, withoutFirst);
    }
  }

  // Rows of Pascal's triangle, one lemma per row so that each step unfolds `Choose` once.

  lemma PascalRow1(n: nat)
    requires n == 1
    ensures Choose(n, 1) == 1
  {
  }

  lemma PascalRow2(n: nat)
    requires n == 2
    ensures Choose(n, 1) == 2
    ensures Choose(n, 2) == 1
  {
    PascalRow1(n - 1);
  }

  lemma PascalRow3(n: nat)
    requires n == 3
    ensures Choose(n, 1) == 3
    ensures Choose(n, 2) == 3
    ensures Choose(n, 3) == 1
  {
    PascalRow2(n - 1);
  }

  lemma PascalRow4(n: nat)
    requires n == 4
    ensures Choose(n, 1) == 4
    ensures Choose(n, 2) == 6
    ensures Choose(n, 3) == 4
    ensures Choose(n, 4) == 1
  {
    PascalRow3(n - 1);
  }

  lemma PascalRow5(n: nat)
    requires n == 5
    ensures Choose(n, 1) == 5
    ensures Choose(n, 2) == 10
    ensures Choose(n, 3) == 10
    ensures Choose(n, 4) == 5
    ensures Choose(n, 5) == 1
  {
    PascalRow4(n - 1);
  }

  lemma PascalRow6(n: nat)
    requires n == 6
    ensures Choose(n, 1) == 6
    ensures Choose(n, 2) == 15
    ensures Choose(n, 3) == 20
    ensures Choose(n, 4) == 15
    ensures Choose(n, 5) == 6
  {
    PascalRow5(n - 1);
  }

  lemma PascalRow7(n: nat)
    requires n == 7
    ensures Choose(n, 1) == 7
    ensures Choose(n, 2) == 21
    ensures Choose(n, 3) == 35
    ensures Choose(n, 4) == 35
    ensures Choose(n, 5) == 21
  {
    PascalRow6(n - 1);
  }

  lemma PascalRow8(n: nat)
    requires n == 8
    ensures Choose(n, 1) == 8
    ensures Choose(n, 2) == 28
    ensures Choose(n, 3) == 56
    ensures Choose(n, 4) == 70
    ensures Choose(n, 5) == 56
  {
    PascalRow7(n - 1);
  }

  lemma PascalRow9(n: nat)
    requires n == 9
    ensures Choose(n, 1) == 9
    ensures Choose(n, 2) == 36
    ensures Choose(n, 3) == 84
    ensures Choose(n, 4) == 126
    ensures Choose(n, 5) == 126
  {
    PascalRow8(n - 1);
  }

  /** Ten players split into two teams of five in 252 ways. */
  lemma TenChooseFive(n: nat)
    requires n == PlayerCount
    ensures Choose(n, TeamSize) == 252
  {
    PascalRow9(n - 1);
  }

  // ---------------------------------------------------------------------
  // Permutations

  function RemoveIndex<T>(s: seq<T>, i: nat): (r: seq<T>)
    requires i < |s|
    ensures |r| == |s| - 1
  {
    s[..i] + s[i+1..]
  }

  /**
   All orderings of `arr`: for each position i in turn, `arr[i]` followed
   by every ordering of the rest.
   */
  function Permutations<T>(arr: seq<T>): (r: seq<seq<T>>)
    ensures |r| == Factorial(|arr|)
    ensures forall p :: p in r ==> multiset(p) == multiset(arr)
    decreases |arr|, 1
  {
    if |arr| == 0 then [[]] else PermutationsFrom(arr, 0)
  }

  /** The part of `Permutations(arr)` whose head is `arr[i]`, `arr[i+1]`, .... */
  function PermutationsFrom<T>(arr: seq<T>, i: nat): (r: seq<seq<T>>)
    requires 0 < |arr| && i <= |arr|
    ensures |r| == (|arr| - i) * Factorial(|arr| - 1)
    ensures forall p :: p in r ==> multiset(p) == multiset(arr)
    decreases |arr|, 0, |arr| - i
  {
    if i == |arr| then []
    else
      var perms := Permutations(RemoveIndex(arr, i));
      var here := PrependAll(arr[i], perms);
      HeadsArePermutations(arr, i, perms);
      CountStep(|arr| - i, Factorial(|arr| - 1));
      here + PermutationsFrom(arr, i + 1)
  }

  /** Putting `arr[i]` in front of orderings of the rest gives orderings of `arr`. */
  lemma HeadsArePermutations<T>(arr: seq<T>, i: nat, perms: seq<seq<T>>)
    requires i < |arr|
    requires forall p :: p in perms ==> multiset(p) == multiset(RemoveIndex(arr, i))
    ensures forall p :: p in PrependAll(arr[i], perms) ==> multiset(p) == multiset(arr)
  {
    RemoveAt(arr, i);
    forall p | p in PrependAll(arr[i], perms)
      ensures multiset(p) == multiset(arr)
    {
      var k :| 0 <= k < |perms| && PrependAll(arr[i], perms)[k] == p;
      assert p == [arr[i]] + perms[k];
      assert perms[k] in perms;
    }
  }

  lemma CountStep(k: nat, f: nat)
    requires k > 0
    ensures k * f == f + (k - 1) * f
  {
  }

  /** Every reordering of `arr` is enumerated. */
  lemma {:induction false} PermutationsComplete<T>(arr: seq<T>, p: seq<T>)
    requires multiset(p) == multiset(arr)
    ensures p in Permutations(arr)
    decreases |arr|
  {
    PermutationKeepsMembers(p, arr);
    if |arr| == 0 {
      assert p == [];
    } else {
      assert p[0] in arr;
      var k :| 0 <= k < |arr| && arr[k] == p[0];
      var rest := RemoveIndex(arr, k);
      RemoveAt(arr, k);
      assert p == [p[0]] + p[1..];
      assert multiset(p[1..]) == multiset(p) - multiset{p[0]};
      PermutationsComplete(rest, p[1..]);
      var perms := Permutations(rest);
      var m :| 0 <= m < |perms| && perms[m] == p[1..];
      assert PrependAll(arr[k], perms)[m] == p;
      PermutationsFromCovers(arr, 0, k, p);
    }
  }

  lemma {:induction false} PermutationsFromCovers<T>(arr: seq<T>, i: nat, k: nat, p: seq<T>)
    requires i <= k < |arr|
    requires p in PrependAll(arr[k], Permutations(RemoveIndex(arr, k)))
    ensures p in PermutationsFrom(arr, i)
    decreases k - i
  {
    if i < k {
      PermutationsFromCovers(arr, i + 1, k, p);
    }
  }

  lemma FivePermutationCount()
    ensures Factorial(|RoleKeys|) == 120
  {
    assert |RoleKeys| == 5;
    assert Factorial(1) == 1 && Factorial(2) == 2 && Factorial(3) == 6 && Factorial(4) == 24;
  }

  // ---------------------------------------------------------------------
  // Stable sort by a numeric key

  predicate SortedBy<T>(s: seq<T>, key: T -> int) {
    forall i, j :: 0 <= i < j < |s| ==> key(s[i]) <= key(s[j])
  }

  /** Insert `x` after every element whose key is at most `key(x)`. */
  function Insert<T(==)>(x: T, s: seq<T>, key: T -> int): (r: seq<T>)
    requires SortedBy(s, key)
    ensures multiset(r) == multiset(s) + multiset{x}
    ensures SortedBy(r, key)
  {
    if |s| == 0 then [x]
    else if key(x) < key(s[0]) then [x] + s
    else
      var tail := Insert(x, s[1..], key);
      assert s == [s[0]] + s[1..];
      var r := [s[0]] + tail;
      forall j | 0 < j < |r|
        ensures key(s[0]) <= key(r[j])
      {
        var y := r[j];
        assert y == tail[j - 1];
        assert y in multiset(tail);
        if y != x {
          assert y in multiset(s[1..]);
          var m :| 0 <= m < |s[1..]| && s[1..][m] == y;
          assert s[m + 1] == y;
        }
      }
      r
  }

  /**
   Insertion sort by `key`, ascending; elements with equal keys keep their
   relative order, as `Array.prototype.sort` does.
   */
  function SortBy<T(==)>(s: seq<T>, key: T -> int): (r: seq<T>)
    ensures multiset(r) == multiset(s)
    ensures SortedBy(r, key)
  {
    if |s| == 0 then []
    else
      assert s == s[..|s| - 1] + [s[|s| - 1]];
      Insert(s[|s| - 1], SortBy(s[..|s| - 1], key), key)
  }

  /** The end index `slice(0, end)` stops at, for a list of length `len`. */
  function SliceEnd(len: nat, end: int): (r: nat)
    ensures r <= len
    ensures 0 <= end ==> r == if end < len then end else len
    ensures end < 0 ==> r + (if -end < len then -end else len) == len
  {
    if end < 0 then (if len + end < 0 then 0 else len + end)
    else if end < len then end
    else len
  }

  // ---------------------------------------------------------------------
  // Order-keeping filters

  /** The elements of `s` that are in `e`, in the order of `s`. */
  function Keep(s: seq<nat>, e: seq<nat>): (r: seq<nat>)
    ensures forall x :: x in r <==> x in s && x in e
    ensures IsSubseq(r, s)
  {
    if |s| == 0 then []
    else if s[0] in e then [s[0]] + Keep(s[1..], e)
    else Keep(s[1..], e)
  }

  /** The elements of `s` that are not in `e`, in the order of `s` (`filter(x => !e.includes(x))`). */
  function Without(s: seq<nat>, e: seq<nat>): (r: seq<nat>)
    ensures forall x :: x in r <==> x in s && x !in e
    ensures IsSubseq(r, s)
  {
    if |s| == 0 then []
    else if s[0] in e then Without(s[1..], e)
    else [s[0]] + Without(s[1..], e)
  }

  /** The two filters split `s`: together they hold exactly its elements. */
  lemma {:induction false} KeepWithoutSplit(s: seq<nat>, e: seq<nat>)
    ensures multiset(Keep(s, e)) + multiset(Without(s, e)) == multiset(s)
    ensures |Keep(s, e)| + |Without(s, e)| == |s|
  {
    if |s| > 0 {
      KeepWithoutSplit(s[1..], e);
      assert s == [s[0]] + s[1..];
    }
  }

  lemma {:induction false} KeepCongruent(s: seq<nat>, e1: seq<nat>, e2: seq<nat>)
    requires forall x :: x in s ==> (x in e1 <==> x in e2)
    ensures Keep(s, e1) == Keep(s, e2)
  {
    if |s| > 0 {
      assert s[0] in s;
      assert forall x :: x in s[1..] ==> x in s;
      KeepCongruent(s[1..], e1, e2);
    }
  }

  /** Filtering a list without repeats by one of its subsequences gives that subsequence back. */
  lemma {:induction false} KeepSubseq(s: seq<nat>, c: seq<nat>)
    requires Distinct(s) && IsSubseq(c, s)
    ensures Keep(s, c) == c
    decreases |s|
  {
    SubseqFacts(c, s);
    if |s| > 0 {
      assert Distinct(s[1..]);
      assert s[0] !in s[1..];
      if |c| > 0 && c[0] == s[0] && IsSubseq(c[1..], s[1..]) {
        KeepSubseq(s[1..], c[1..]);
        assert c == [c[0]] + c[1..];
        forall x | x in s[1..]
          ensures x in c <==> x in c[1..]
        {
        }
        KeepCongruent(s[1..], c, c[1..]);
      } else if |c| == 0 {
        assert forall x :: x !in c;
        KeepEmpty(s[1..], c);
        assert Keep(s, c) == Keep(s[1..], c);
      } else {
        assert IsSubseq(c, s[1..]);
        SubseqFacts(c, s[1..]);
        KeepSubseq(s[1..], c);
      }
    }
  }

  lemma {:induction false} KeepEmpty(s: seq<nat>, c: seq<nat>)
    requires |c| == 0
    ensures Keep(s, c) == []
  {
    if |s| > 0 {
      KeepEmpty(s[1..], c);
    }
  }
}
