/**
 * Ascending order on lists of rates, and what "second lowest" means.
 *
 * The calculator sorts each area's rates with `list.sort()` and then reads
 * the element at index 1. `SortAscending` stands for the library sort; the
 * count-based `IsSecondLowest` is an order-free definition of the value
 * the calculator reports, and the lemmas below connect the two.
 */
module Sorting {

  predicate IsSorted(s: seq<real>) {
    forall i, j | 0 <= i < j < |s| :: s[i] <= s[j]
  }

  /** Putting `y` in front of a sorted list that starts no lower keeps it sorted. */
  lemma ConsSorted(y: real, r: seq<real>)
    requires IsSorted(r) && (r == [] || y <= r[0])
    ensures IsSorted([y] + r)
  {
    forall i, j | 0 <= i < j < |[y] + r| ensures ([y] + r)[i] <= ([y] + r)[j] {
      if i > 0 {
        assert ([y] + r)[i] == r[i - 1] && ([y] + r)[j] == r[j - 1];
      } else {
        assert r[0] <= r[j - 1];
      }
    }
  }

  /** Inserts `x` into a sorted list, before the first element not below it. */
  function Insert(x: real, s: seq<real>): (r: seq<real>)
    requires IsSorted(s)
    ensures |r| == |s| + 1
    ensures IsSorted(r)
    ensures multiset(r) == multiset(s) + multiset{x}
    ensures r[0] == x || (|s| > 0 && r[0] == s[0])
  {
    if s == [] || x <= s[0] then
      ConsSorted(x, s);
      [x] + s
    else
      assert s == [s[0]] + s[1..];
      var rest := Insert(x, s[1..]);
      ConsSorted(s[0], rest);
      [s[0]] + rest
  }

  /** The ascending rearrangement of `s`: sorted, and a permutation of `s` (duplicates kept). */
  function SortAscending(s: seq<real>): (r: seq<real>)
    ensures |r| == |s|
    ensures IsSorted(r)
    ensures multiset(r) == multiset(s)
  {
    if s == [] then []
    else
      assert s == [s[0]] + s[1..];
      Insert(s[0], SortAscending(s[1..]))
  }

  /** The first element of a sorted list is at or below each of its elements. */
  lemma SortedHeadLowest(a: seq<real>, x: real)
    requires IsSorted(a) && x in multiset(a)
    ensures a[0] <= x
  {
    var i :| 0 <= i < |a| && a[i] == x;
  }

  /** The tail of a non-empty sorted list holds its elements less one copy of the head, in order. */
  lemma SortedTail(a: seq<real>)
    requires a != [] && IsSorted(a)
    ensures IsSorted(a[1..])
    ensures multiset(a[1..]) == multiset(a) - multiset{a[0]}
    ensures a == [a[0]] + a[1..]
  {
    assert a == [a[0]] + a[1..];
    forall i, j | 0 <= i < j < |a[1..]| ensures a[1..][i] <= a[1..][j] {
      assert a[1..][i] == a[i + 1] && a[1..][j] == a[j + 1];
    }
  }

  /** A sorted list is determined by its elements and their multiplicities. */
  lemma {:induction false} SortedPermutationUnique(a: seq<real>, b: seq<real>)
    requires IsSorted(a) && IsSorted(b)
    requires multiset(a) == multiset(b)
    ensures a == b
  {
    if a != [] {
      assert a[0] in multiset(a);
      assert |b| == |multiset(b)| == |a|;
      assert b[0] in multiset(b);
      SortedHeadLowest(b, a[0]);
      SortedHeadLowest(a, b[0]);
      assert a[0] == b[0];
      SortedTail(a);
      SortedTail(b);
      SortedPermutationUnique(a[1..], b[1..]);
    } else {
      assert |multiset(b)| == 0;
    }
  }

  /** Sorting a list that is already sorted leaves it as it is. */
  lemma SortSorted(s: seq<real>)
    requires IsSorted(s)
    ensures SortAscending(s) == s
  {
    SortedPermutationUnique(SortAscending(s), s);
  }

  /** How many elements of `s` are below `x` (strictly, or also equal to it when `orEqual`). */
  function CountBelow(s: seq<real>, x: real, orEqual: bool): (n: nat)
    ensures n <= |s|
  {
    if s == [] then 0
    else (if s[0] < x || (orEqual && s[0] == x) then 1 else 0) + CountBelow(s[1..], x, orEqual)
  }

  /**
   * `x` is a second-lowest value of `s`: at most one element lies strictly
   * below it and at least two elements lie at or below it. With ties, the
   * lowest value repeated is the second lowest.
   */
  predicate IsSecondLowest(x: real, s: seq<real>) {
    CountBelow(s, x, false) <= 1 && CountBelow(s, x, true) >= 2
  }

  lemma {:induction false} CountBelowConcat(a: seq<real>, b: seq<real>, x: real, orEqual: bool)
    ensures CountBelow(a + b, x, orEqual) == CountBelow(a, x, orEqual) + CountBelow(b, x, orEqual)
  {
    if a != [] {
      assert (a + b)[1..] == a[1..] + b;
      CountBelowConcat(a[1..], b, x, orEqual);
    } else {
      assert a + b == b;
    }
  }

  /** Removing the element at index `j` removes one copy of it. */
  lemma RemoveAt(t: seq<real>, j: nat)
    requires j < |t|
    ensures multiset(t[..j] + t[j + 1..]) == multiset(t) - multiset{t[j]}
  {
    assert t == t[..j] + [t[j]] + t[j + 1..];
  }

  /** The counts over a list are those over the list without index `j`, plus that of `t[j]` alone. */
  lemma CountBelowRemove(t: seq<real>, j: nat, x: real, orEqual: bool)
    requires j < |t|
    ensures CountBelow(t, x, orEqual) == CountBelow(t[..j] + t[j + 1..], x, orEqual) + CountBelow([t[j]], x, orEqual)
  {
    assert t == (t[..j] + [t[j]]) + t[j + 1..];
    CountBelowConcat(t[..j] + [t[j]], t[j + 1..], x, orEqual);
    CountBelowConcat(t[..j], [t[j]], x, orEqual);
    CountBelowConcat(t[..j], t[j + 1..], x, orEqual);
  }

  /** The counts depend only on the elements, not on their order. */
  lemma {:induction false} CountBelowPermutation(s: seq<real>, t: seq<real>, x: real, orEqual: bool)
    requires multiset(s) == multiset(t)
    ensures CountBelow(s, x, orEqual) == CountBelow(t, x, orEqual)
  {
    if s == [] {
      assert |t| == |multiset(t)| == 0;
    } else {
      var y := s[0];
      assert y in multiset(t);
      var j :| 0 <= j < |t| && t[j] == y;
      var rest := t[..j] + t[j + 1..];
      RemoveAt(t, j);
      assert s == [y] + s[1..];
      assert multiset(s[1..]) == multiset(s) - multiset{y};
      CountBelowPermutation(s[1..], rest, x, orEqual);
      CountBelowRemove(t, j, x, orEqual);
      assert [y][1..] == [];
    }
  }

  /** No element of a list that lies wholly at or above `x` is strictly below `x`. */
  lemma {:induction false} CountBelowNone(s: seq<real>, x: real)
    requires forall i | 0 <= i < |s| :: x <= s[i]
    ensures CountBelow(s, x, false) == 0
  {
    if s != [] {
      CountBelowNone(s[1..], x);
    }
  }

  /** Raising the threshold from `x` inclusive to a larger `y` exclusive never loses an element. */
  lemma {:induction false} CountBelowMonotone(s: seq<real>, x: real, y: real)
    requires x < y
    ensures CountBelow(s, x, true) <= CountBelow(s, y, false)
  {
    if s != [] {
      CountBelowMonotone(s[1..], x, y);
    }
  }

  /** Index 1 of a sorted list of at least two rates is its second lowest. */
  lemma SecondOfSorted(s: seq<real>)
    requires IsSorted(s) && |s| >= 2
    ensures IsSecondLowest(s[1], s)
  {
    var rest := s[2..];
    assert s == [s[0], s[1]] + rest;
    assert [s[0], s[1]][1..] == [s[1]];
    assert [s[1]][1..] == [];
    CountBelowConcat([s[0], s[1]], rest, s[1], false);
    CountBelowConcat([s[0], s[1]], rest, s[1], true);
    CountBelowNone(rest, s[1]);
  }

  /** Every copy of `x` in `s` is counted among the elements at or below `x`. */
  lemma {:induction false} CountBelowCopies(s: seq<real>, x: real)
    ensures CountBelow(s, x, true) >= multiset(s)[x]
  {
    if s != [] {
      CountBelowCopies(s[1..], x);
      assert s == [s[0]] + s[1..];
      assert multiset(s) == multiset{s[0]} + multiset(s[1..]);
    }
  }

  /** When the lowest value occurs twice, that value is the second lowest. */
  lemma LowestTwiceIsSecondLowest(s: seq<real>, x: real)
    requires forall i | 0 <= i < |s| :: x <= s[i]
    requires multiset(s)[x] >= 2
    ensures IsSecondLowest(x, s)
  {
    CountBelowNone(s, x);
    CountBelowCopies(s, x);
  }

  /** A list has at most one second-lowest value. */
  lemma SecondLowestUnique(s: seq<real>, x: real, y: real)
    requires IsSecondLowest(x, s) && IsSecondLowest(y, s)
    ensures x == y
  {
    if x < y {
      CountBelowMonotone(s, x, y);
    } else if y < x {
      CountBelowMonotone(s, y, x);
    }
  }

  /**
   * The element at index 1 of the ascending rearrangement of any list with
   * at least two rates is exactly the list's second-lowest value.
   */
  lemma SortedSecondIsSecondLowest(s: seq<real>, x: real)
    requires |s| >= 2
    ensures |SortAscending(s)| == |s|
    ensures IsSecondLowest(x, s) <==> x == SortAscending(s)[1]
  {
    var t := SortAscending(s);
    assert |t| == |multiset(t)| == |multiset(s)| == |s|;
    SecondOfSorted(t);
    CountBelowPermutation(t, s, t[1], false);
    CountBelowPermutation(t, s, t[1], true);
    if IsSecondLowest(x, s) {
      SecondLowestUnique(s, x, t[1]);
    }
  }
}
