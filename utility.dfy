/** Generic helpers of `utility.hpp`: max/min, the six comparators, `swap`
    of two cells and the sortedness oracle `is_sorted`. */
module Utility {

  /** `greater(first, second)`: `first` if it is strictly larger, else `second`. */
  function Greater(first: int, second: int): int {
    if first > second then first else second
  }

  /** `lesser(first, second)`: `first` if it is strictly smaller, else `second`. */
  function Lesser(first: int, second: int): int {
    if first < second then first else second
  }

  lemma GreaterIsMaximum(first: int, second: int)
    ensures Greater(first, second) == first || Greater(first, second) == second
    ensures Greater(first, second) >= first && Greater(first, second) >= second
    ensures first == second ==> Greater(first, second) == second
  {}

  lemma LesserIsMinimum(first: int, second: int)
    ensures Lesser(first, second) == first || Lesser(first, second) == second
    ensures Lesser(first, second) <= first && Lesser(first, second) <= second
    ensures first == second ==> Lesser(first, second) == second
  {}

  // The comparators, each a single built-in relation on the element type.

  predicate IsGreater(first: int, second: int) { first > second }
  predicate IsGreaterOrEqual(first: int, second: int) { first >= second }
  predicate IsLesser(first: int, second: int) { first < second }
  predicate IsLesserOrEqual(first: int, second: int) { first <= second }
  predicate IsEqual<T(==)>(first: T, second: T) { first == second }
  predicate IsNotEqual<T(==)>(first: T, second: T) { first != second }

  lemma ComparatorDualities(a: int, b: int)
    ensures IsGreater(a, b) == IsLesser(b, a)
    ensures IsGreaterOrEqual(a, b) == !IsLesser(a, b)
    ensures IsLesserOrEqual(a, b) == !IsGreater(a, b)
    ensures IsNotEqual(a, b) == !IsEqual(a, b)
  {}

  // Properties of a comparator `compare(a, b)`, read as "a belongs after b".

  ghost predicate Asymmetric<T(!new)>(compare: (T, T) -> bool) {
    forall x, y :: compare(x, y) ==> !compare(y, x)
  }

  /** If x belongs after z, then every y belongs either before x or after z. */
  ghost predicate NegativelyTransitive<T(!new)>(compare: (T, T) -> bool) {
    forall x, y, z :: compare(x, z) ==> compare(x, y) || compare(y, z)
  }

  ghost predicate StrictWeakOrder<T(!new)>(compare: (T, T) -> bool) {
    Asymmetric(compare) && NegativelyTransitive(compare)
  }

  lemma DefaultComparatorsAreStrictWeakOrders()
    ensures StrictWeakOrder(IsGreater) && StrictWeakOrder(IsLesser)
  {}

  lemma StrictWeakOrderIsTransitive<T(!new)>(compare: (T, T) -> bool, x: T, y: T, z: T)
    requires StrictWeakOrder(compare)
    requires compare(x, y) && compare(y, z)
    ensures compare(x, z)
  {
    assert compare(x, y) ==> compare(x, z) || compare(z, y);
  }

  /** "Does not belong after" is transitive under a strict weak order. */
  lemma NotAfterIsTransitive<T(!new)>(compare: (T, T) -> bool, x: T, y: T, z: T)
    requires StrictWeakOrder(compare)
    requires !compare(x, y) && !compare(y, z)
    ensures !compare(x, z)
  {}

  /** The value `is_sorted` computes: no adjacent pair has `compare(left, right)`. */
  predicate Sorted<T>(s: seq<T>, compare: (T, T) -> bool) {
    forall k | 0 <= k && k + 1 < |s| :: !compare(s[k], s[k + 1])
  }

  /** Every pair, not only the adjacent ones, is in order. */
  ghost predicate PairwiseSorted<T>(s: seq<T>, compare: (T, T) -> bool) {
    forall i, j | 0 <= i < j < |s| :: !compare(s[i], s[j])
  }

  /** Under a strict weak order, adjacent order is the same as pairwise order. */
  lemma {:induction false} SortedIsPairwise<T(!new)>(s: seq<T>, compare: (T, T) -> bool)
    requires StrictWeakOrder(compare)
    ensures Sorted(s, compare) <==> PairwiseSorted(s, compare)
  {
    if Sorted(s, compare) && |s| > 1 {
      SortedIsPairwise(s[1..], compare);
      assert PairwiseSorted(s[1..], compare);
      forall i, j | 0 <= i < j < |s| ensures !compare(s[i], s[j]) {
        if i > 0 {
          assert s[i] == s[1..][i - 1] && s[j] == s[1..][j - 1];
        } else if j > 1 {
          assert !compare(s[1], s[j]) by { assert s[1] == s[1..][0] && s[j] == s[1..][j - 1]; }
          NotAfterIsTransitive(compare, s[0], s[1], s[j]);
        }
      }
    }
  }

  /** With `is_greater` the oracle accepts exactly the non-decreasing sequences. */
  lemma {:induction false} SortedByGreaterIsAscending(s: seq<int>)
    ensures Sorted(s, IsGreater) <==> (forall i, j | 0 <= i < j < |s| :: s[i] <= s[j])
  {
    DefaultComparatorsAreStrictWeakOrders();
    SortedIsPairwise(s, IsGreater);
  }

  /** With `is_lesser` the oracle accepts exactly the non-increasing sequences. */
  lemma {:induction false} SortedByLesserIsDescending(s: seq<int>)
    ensures Sorted(s, IsLesser) <==> (forall i, j | 0 <= i < j < |s| :: s[i] >= s[j])
  {
    DefaultComparatorsAreStrictWeakOrders();
    SortedIsPairwise(s, IsLesser);
  }

  /** A strictly ascending range of two or more is sorted under `is_greater`
      and not under `is_lesser`. */
  lemma AscendingIsNotDescending(s: seq<int>)
    requires |s| >= 2
    requires forall k | 0 <= k && k + 1 < |s| :: s[k] < s[k + 1]
    ensures Sorted(s, IsGreater) && !Sorted(s, IsLesser)
  {
    assert IsLesser(s[0], s[1]);
  }

  /** The sequence `s` with the cells `i` and `j` exchanged. */
  function Swapped<T>(s: seq<T>, i: nat, j: nat): (r: seq<T>)
    requires i < |s| && j < |s|
    ensures |r| == |s| && r[i] == s[j] && r[j] == s[i]
    ensures forall k | 0 <= k < |s| && k != i && k != j :: r[k] == s[k]
  {
    s[i := s[j]][j := s[i]]
  }

  lemma SwappedTwiceIsIdentity<T>(s: seq<T>, i: nat, j: nat)
    requires i < |s| && j < |s|
    ensures Swapped(Swapped(s, i, j), i, j) == s
  {}

  /** `swap(first, second)` on two cells of one array, through a temporary. */
  method Swap<T>(a: array<T>, i: nat, j: nat)
    requires i < a.Length && j < a.Length
    modifies a
    ensures a[..] == Swapped(old(a[..]), i, j)
    ensures multiset(a[..]) == multiset(old(a[..]))
  {
    var temporary := a[i];
    a[i] := a[j];
    a[j] := temporary;
  }

  /** `is_sorted(begin, end, compare)` over `a[lo..hi]`. The loop condition
      `it + 1 != end` never becomes false on an empty range, so the range
      must hold at least one element. */
  method IsSorted<T>(a: array<T>, lo: nat, hi: nat, compare: (T, T) -> bool) returns (r: bool)
    requires lo < hi <= a.Length
    ensures r <==> Sorted(a[lo..hi], compare)
    ensures !r <==> exists k :: lo <= k && k + 1 < hi && compare(a[k], a[k + 1])
  {
    var it := lo;
    while it + 1 != hi
      invariant lo <= it < hi
      invariant forall k | lo <= k < it :: !compare(a[k], a[k + 1])
    {
      if compare(a[it], a[it + 1]) {
        assert a[lo..hi][it - lo] == a[it] && a[lo..hi][it - lo + 1] == a[it + 1];
        return false;
      }
      it := it + 1;
    }
    forall k | 0 <= k && k + 1 < hi - lo ensures !compare(a[lo..hi][k], a[lo..hi][k + 1]) {
      assert a[lo..hi][k] == a[lo + k] && a[lo..hi][k + 1] == a[lo + k + 1];
    }
    return true;
  }
}
