/** The in-place sorts of `sort.hpp`. Each sorts the half-open range
    `a[lo..hi]` of an array under a comparator `compare(a, b)`, read as
    "a belongs after b"; every algorithm only swaps cells of the range. */
module Sort {
  import opened Utility

  /** `after` differs from `before` at most inside `[lo, hi)`. */
  ghost predicate SameOutside<T>(after: seq<T>, before: seq<T>, lo: nat, hi: nat) {
    |after| == |before| &&
    forall k | 0 <= k < |before| && !(lo <= k < hi) :: after[k] == before[k]
  }

  /** Adjacent cells of `s` in `[lo, hi)` are in order. */
  ghost predicate SortedBetween<T>(s: seq<T>, lo: nat, hi: nat, compare: (T, T) -> bool) {
    forall k | lo <= k && k + 1 < hi && k + 1 < |s| :: !compare(s[k], s[k + 1])
  }

  /** Every cell in `[lo, p)` is in order with every later cell of `[lo, hi)`:
      the prefix `[lo, p)` holds its final values. */
  ghost predicate Settled<T>(s: seq<T>, lo: nat, p: nat, hi: nat, compare: (T, T) -> bool)
    requires hi <= |s|
  {
    forall x, y | lo <= x < p && x < y < hi :: !compare(s[x], s[y])
  }

  /** A whole-array permutation that keeps the outside fixed permutes the range. */
  lemma RangeMultiset<T>(after: seq<T>, before: seq<T>, lo: nat, hi: nat)
    requires lo <= hi <= |before|
    requires SameOutside(after, before, lo, hi)
    requires multiset(after) == multiset(before)
    ensures multiset(after[lo..hi]) == multiset(before[lo..hi])
  {
    assert after == after[..lo] + after[lo..hi] + after[hi..];
    assert before == before[..lo] + before[lo..hi] + before[hi..];
    assert after[..lo] == before[..lo];
    assert after[hi..] == before[hi..];
    assert multiset(after) == multiset(after[..lo]) + multiset(after[lo..hi]) + multiset(after[hi..]);
    assert multiset(before) == multiset(before[..lo]) + multiset(before[lo..hi]) + multiset(before[hi..]);
    assert multiset(after[lo..hi]) == multiset(after) - multiset(after[..lo]) - multiset(after[hi..]);
    assert multiset(before[lo..hi]) == multiset(before) - multiset(before[..lo]) - multiset(before[hi..]);
  }

  lemma SortedBetweenIsSorted<T>(s: seq<T>, lo: nat, hi: nat, compare: (T, T) -> bool)
    requires lo <= hi <= |s|
    requires SortedBetween(s, lo, hi, compare)
    ensures Sorted(s[lo..hi], compare)
  {
    forall k | 0 <= k && k + 1 < hi - lo ensures !compare(s[lo..hi][k], s[lo..hi][k + 1]) {
      assert s[lo..hi][k] == s[lo + k] && s[lo..hi][k + 1] == s[lo + k + 1];
    }
  }

  /** A swap of two cells at or after `p` keeps a settled prefix settled. */
  lemma SettledAfterSwap<T>(s: seq<T>, lo: nat, p: nat, hi: nat, i: nat, j: nat, compare: (T, T) -> bool)
    requires hi <= |s| && p <= i < hi && p <= j < hi
    requires Settled(s, lo, p, hi, compare)
    ensures Settled(Swapped(s, i, j), lo, p, hi, compare)
  {
    var t := Swapped(s, i, j);
    forall x, y | lo <= x < p && x < y < hi ensures !compare(t[x], t[y]) {
      assert t[x] == s[x];
      if y == i {
        assert !compare(s[x], s[j]);
      } else if y == j {
        assert !compare(s[x], s[i]);
      } else {
        assert t[y] == s[y];
      }
    }
  }

  /** A range of at most one cell comes out of any of the sorts unchanged. */
  lemma ShortRangeUnchanged<T>(after: seq<T>, before: seq<T>, lo: nat, hi: nat)
    requires lo <= hi <= |before| && hi - lo <= 1
    requires SameOutside(after, before, lo, hi)
    requires multiset(after[lo..hi]) == multiset(before[lo..hi])
    ensures after == before
  {
    if hi == lo + 1 {
      assert after[lo..hi] == [after[lo]] && before[lo..hi] == [before[lo]];
      assert after[lo] in multiset(before[lo..hi]);
    }
  }

  /** `insertion_sort`: for each `i` after the first, swap the element at `i`
      backwards while its left neighbour belongs after it. Starting at
      `begin + 1` needs a non-empty range. An asymmetric comparator is all
      the loop needs to leave the range sorted. */
  method InsertionSort<T(!new)>(a: array<T>, lo: nat, hi: nat, compare: (T, T) -> bool)
    requires lo < hi <= a.Length
    modifies a
    ensures SameOutside(a[..], old(a[..]), lo, hi)
    ensures multiset(a[lo..hi]) == multiset(old(a[lo..hi]))
    ensures Asymmetric(compare) ==> Sorted(a[lo..hi], compare)
  {
    var i := lo + 1;
    while i != hi
      invariant lo < i <= hi
      invariant SameOutside(a[..], old(a[..]), lo, hi)
      invariant multiset(a[..]) == multiset(old(a[..]))
      invariant Asymmetric(compare) ==> SortedBetween(a[..], lo, i, compare)
    {
      var j := i;
      // Cells [lo, j) and [j + 1, i + 1) hold the sorted prefix in order,
      // the element being inserted sits at j.
      while j != lo && compare(a[j - 1], a[j])
        invariant lo <= j <= i
        invariant SameOutside(a[..], old(a[..]), lo, hi)
        invariant multiset(a[..]) == multiset(old(a[..]))
        invariant Asymmetric(compare) ==> SortedBetween(a[..], lo, j, compare)
        invariant Asymmetric(compare) ==> SortedBetween(a[..], j + 1, i + 1, compare)
        invariant Asymmetric(compare) && j < i ==> !compare(a[j], a[j + 1])
        invariant Asymmetric(compare) && lo < j < i ==> !compare(a[j - 1], a[j + 1])
      {
        Swap(a, j, j - 1);
        j := j - 1;
      }
      i := i + 1;
    }
    RangeMultiset(a[..], old(a[..]), lo, hi);
    if Asymmetric(compare) {
      SortedBetweenIsSorted(a[..], lo, hi, compare);
    }
  }

  /** One pass of the outer loop of `bubble_sort` at `i`: walk `j` from the
      last cell down to `i`, swapping the pair `(j - 1, j)` whenever it is out
      of order. The pass touches only `[i - 1, hi)` and, under a strict weak
      order, carries to `i - 1` an element that belongs before all the rest. */
  method BubblePass<T(!new)>(a: array<T>, lo: nat, i: nat, hi: nat, compare: (T, T) -> bool)
    requires lo < i < hi <= a.Length
    modifies a
    ensures SameOutside(a[..], old(a[..]), i - 1, hi)
    ensures multiset(a[..]) == multiset(old(a[..]))
    ensures StrictWeakOrder(compare) && Settled(old(a[..]), lo, i - 1, hi, compare) ==>
              Settled(a[..], lo, i, hi, compare)
  {
    ghost var ordered := StrictWeakOrder(compare) && Settled(a[..], lo, i - 1, hi, compare);
    var j := hi - 1;
    while j != i - 1
      invariant i - 1 <= j < hi
      invariant SameOutside(a[..], old(a[..]), i - 1, hi)
      invariant multiset(a[..]) == multiset(old(a[..]))
      invariant ordered ==> Settled(a[..], lo, i - 1, hi, compare)
      invariant ordered ==> forall m | j < m < hi :: !compare(a[j], a[m])
    {
      if compare(a[j - 1], a[j]) {
        if ordered {
          SettledAfterSwap(a[..], lo, i - 1, hi, j, j - 1, compare);
        }
        Swap(a, j, j - 1);
      } else if ordered {
        forall m | j - 1 < m < hi ensures !compare(a[j - 1], a[m]) {
          if m > j { NotAfterIsTransitive(compare, a[j - 1], a[j], a[m]); }
        }
      }
      j := j - 1;
    }
  }

  /** `bubble_sort`: one pass for each `i` after the first. Starting at
      `begin + 1` needs a non-empty range. */
  method BubbleSort<T(!new)>(a: array<T>, lo: nat, hi: nat, compare: (T, T) -> bool)
    requires lo < hi <= a.Length
    modifies a
    ensures SameOutside(a[..], old(a[..]), lo, hi)
    ensures multiset(a[lo..hi]) == multiset(old(a[lo..hi]))
    ensures StrictWeakOrder(compare) ==> Sorted(a[lo..hi], compare)
  {
    var i := lo + 1;
    while i != hi
      invariant lo < i <= hi
      invariant SameOutside(a[..], old(a[..]), lo, hi)
      invariant multiset(a[..]) == multiset(old(a[..]))
      invariant StrictWeakOrder(compare) ==> Settled(a[..], lo, i - 1, hi, compare)
    {
      BubblePass(a, lo, i, hi, compare);
      i := i + 1;
    }
    RangeMultiset(a[..], old(a[..]), lo, hi);
    if StrictWeakOrder(compare) {
      assert SortedBetween(a[..], lo, hi, compare);
      SortedBetweenIsSorted(a[..], lo, hi, compare);
    }
  }

  /** The inner loop of `selection_sort`: the candidate `minimal` starts at `i`
      and moves to `j` exactly when `compare(*minimal, *j)` holds. Whatever the
      comparator, nothing after the chosen cell belongs before it; under a strict
      weak order it belongs before or with every cell of the suffix, and it is
      the earliest such cell. */
  method FindExtremum<T(!new)>(a: array<T>, i: nat, hi: nat, compare: (T, T) -> bool) returns (minimal: nat)
    requires i < hi <= a.Length
    ensures i <= minimal < hi
    ensures forall m | minimal < m < hi :: !compare(a[minimal], a[m])
    ensures StrictWeakOrder(compare) ==> forall m | i <= m < hi :: !compare(a[minimal], a[m])
    ensures StrictWeakOrder(compare) ==> forall m | i <= m < minimal :: compare(a[m], a[minimal])
  {
    minimal := i;
    var j := i + 1;
    while j != hi
      invariant i <= minimal < j <= hi
      invariant forall m | minimal < m < j :: !compare(a[minimal], a[m])
      invariant StrictWeakOrder(compare) ==> forall m | i <= m < j :: !compare(a[minimal], a[m])
      invariant StrictWeakOrder(compare) ==> forall m | i <= m < minimal :: compare(a[m], a[minimal])
    {
      if compare(a[minimal], a[j]) {
        if StrictWeakOrder(compare) {
          forall m | i <= m <= j ensures !compare(a[j], a[m]) {
            assert !compare(a[minimal], a[m]) || m == j;
          }
          forall m | i <= m < j ensures compare(a[m], a[j]) {
            if m < minimal {
              StrictWeakOrderIsTransitive(compare, a[m], a[minimal], a[j]);
            } else if m > minimal {
              assert compare(a[minimal], a[j]) ==> compare(a[minimal], a[m]) || compare(a[m], a[j]);
            }
          }
        }
        minimal := j;
      }
      j := j + 1;
    }
  }

  /** `selection_sort`: move the extremum of each suffix to its front. Unlike
      the other two it starts at `begin` and accepts an empty range. */
  method SelectionSort<T(!new)>(a: array<T>, lo: nat, hi: nat, compare: (T, T) -> bool)
    requires lo <= hi <= a.Length
    modifies a
    ensures SameOutside(a[..], old(a[..]), lo, hi)
    ensures multiset(a[lo..hi]) == multiset(old(a[lo..hi]))
    ensures StrictWeakOrder(compare) ==> Sorted(a[lo..hi], compare)
  {
    var i := lo;
    while i != hi
      invariant lo <= i <= hi
      invariant SameOutside(a[..], old(a[..]), lo, hi)
      invariant multiset(a[..]) == multiset(old(a[..]))
      invariant StrictWeakOrder(compare) ==> Settled(a[..], lo, i, hi, compare)
    {
      var minimal := FindExtremum(a, i, hi, compare);
      ghost var before := a[..];
      assert StrictWeakOrder(compare) ==> forall m | i <= m < hi :: !compare(before[minimal], before[m]);
      if minimal != i {
        if StrictWeakOrder(compare) {
          SettledAfterSwap(a[..], lo, i, hi, i, minimal, compare);
        }
        Swap(a, i, minimal);
      }
      if StrictWeakOrder(compare) {
        forall y | i < y < hi ensures !compare(a[i], a[y]) {
          assert a[i] == before[minimal];
          assert a[y] == before[y] || a[y] == before[i];
        }
      }
      i := i + 1;
    }
    RangeMultiset(a[..], old(a[..]), lo, hi);
    if StrictWeakOrder(compare) {
      assert SortedBetween(a[..], lo, hi, compare);
      SortedBetweenIsSorted(a[..], lo, hi, compare);
    }
  }

  /** One call of the `bogo` lambda: `length` swaps of two cells chosen
      anywhere in `[lo, lo + length)`. The random draws are left
      nondeterministic. */
  method BogoRound<T>(a: array<T>, lo: nat, length: nat)
    requires 0 < length && lo + length <= a.Length
    modifies a
    ensures SameOutside(a[..], old(a[..]), lo, lo + length)
    ensures multiset(a[..]) == multiset(old(a[..]))
  {
    var i := 0;
    while i < length
      invariant SameOutside(a[..], old(a[..]), lo, lo + length)
      invariant multiset(a[..]) == multiset(old(a[..]))
    {
      var first :| lo <= first < lo + length;
      var second :| lo <= second < lo + length;
      Swap(a, first, second);
      i := i + 1;
    }
  }

  /** `bogo_sort(begin, length, compare)`: shuffle until `is_sorted` holds.
      The source loops without bound; here the loop gives up after `rounds`
      shuffles and says whether the range ended sorted. */
  method BogoSort<T>(a: array<T>, lo: nat, length: nat, compare: (T, T) -> bool, rounds: nat) returns (sorted: bool)
    requires 0 < length && lo + length <= a.Length
    modifies a
    ensures sorted <==> Sorted(a[lo..lo + length], compare)
    ensures SameOutside(a[..], old(a[..]), lo, lo + length)
    ensures multiset(a[lo..lo + length]) == multiset(old(a[lo..lo + length]))
  {
    sorted := IsSorted(a, lo, lo + length, compare);
    var round := 0;
    while !sorted && round < rounds
      invariant sorted <==> Sorted(a[lo..lo + length], compare)
      invariant SameOutside(a[..], old(a[..]), lo, lo + length)
      invariant multiset(a[..]) == multiset(old(a[..]))
    {
      BogoRound(a, lo, length);
      sorted := IsSorted(a, lo, lo + length, compare);
      round := round + 1;
    }
    RangeMultiset(a[..], old(a[..]), lo, lo + length);
  }
}
