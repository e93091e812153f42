/** The assertion helpers of class `test` in `test.hpp`. Each one returns
    when its check holds and throws a `test_exception` otherwise; here the
    throw is the `Fail` outcome. The exception messages are not modelled. */
module Assertions {
  import opened Errors
  import Utility

  /** `test::eq`: fails when `first != second`. */
  function Eq<T(==)>(first: T, second: T): Outcome {
    if first != second then Fail else Pass
  }

  /** `test::neq`: fails when `first == second`. */
  function Neq<T(==)>(first: T, second: T): Outcome {
    if first == second then Fail else Pass
  }

  /** `test::gt`: fails when `first <= second`. */
  function Gt(first: int, second: int): Outcome {
    if first <= second then Fail else Pass
  }

  /** `test::lt`: fails when `first >= second`. */
  function Lt(first: int, second: int): Outcome {
    if first >= second then Fail else Pass
  }

  /** `test::geq`: fails when `first < second`. */
  function Geq(first: int, second: int): Outcome {
    if first < second then Fail else Pass
  }

  /** `test::leq`: fails when `first > second`. */
  function Leq(first: int, second: int): Outcome {
    if first > second then Fail else Pass
  }

  /** Each check passes exactly when the comparator of the same name holds. */
  lemma ChecksMatchComparators(first: int, second: int)
    ensures Eq(first, second) == Pass <==> Utility.IsEqual(first, second)
    ensures Neq(first, second) == Pass <==> Utility.IsNotEqual(first, second)
    ensures Gt(first, second) == Pass <==> Utility.IsGreater(first, second)
    ensures Lt(first, second) == Pass <==> Utility.IsLesser(first, second)
    ensures Geq(first, second) == Pass <==> Utility.IsGreaterOrEqual(first, second)
    ensures Leq(first, second) == Pass <==> Utility.IsLesserOrEqual(first, second)
  {}

  /** `eq`/`neq`, `gt`/`leq` and `lt`/`geq` are pairwise complementary:
      on any two values exactly one of each pair fails. */
  lemma ChecksAreComplementary(first: int, second: int)
    ensures (Eq(first, second) == Fail) <==> (Neq(first, second) == Pass)
    ensures (Gt(first, second) == Fail) <==> (Leq(first, second) == Pass)
    ensures (Lt(first, second) == Fail) <==> (Geq(first, second) == Pass)
  {}

  /** What `container_equal` reports: success, which container is bigger,
      or the first index at which the elements differ. */
  datatype ContainerCheck = Passed | SizeMismatch(firstBigger: bool) | Mismatch(index: nat)

  /** `test::container_equal`: compare the sizes, then step through both
      containers with a counter and stop at the first differing pair. */
  method ContainerEqual<T(==)>(first: seq<T>, second: seq<T>) returns (r: ContainerCheck)
    ensures r == Passed <==> first == second
    ensures |first| != |second| ==> r == SizeMismatch(|first| > |second|)
    ensures |first| == |second| && first != second ==> r.Mismatch?
    ensures r.Mismatch? ==> |first| == |second| && r.index < |first|
    ensures r.Mismatch? ==> first[r.index] != second[r.index] && first[..r.index] == second[..r.index]
  {
    if |first| != |second| {
      return SizeMismatch(|first| > |second|);
    }
    var i := 0;
    while i != |first|
      invariant i <= |first|
      invariant first[..i] == second[..i]
    {
      if first[i] != second[i] {
        return Mismatch(i);
      }
      i := i + 1;
    }
    assert first == first[..i] && second == second[..i];
    return Passed;
  }

  /** `test::container_not_equal`: passes at once on a size difference,
      otherwise scans with `eq_flag` and fails only if no pair differs. */
  method ContainerNotEqual<T(==)>(first: seq<T>, second: seq<T>) returns (r: Outcome)
    ensures r == Fail <==> first == second
    ensures |first| != |second| ==> r == Pass
  {
    if |first| != |second| {
      return Pass;
    }
    var i := 0;
    var eqFlag := true;
    while i != |first|
      invariant i <= |first|
      invariant first[..i] == second[..i]
      invariant eqFlag
    {
      if first[i] != second[i] {
        eqFlag := false;
        break;
      }
      i := i + 1;
    }
    if eqFlag {
      assert first == first[..i] && second == second[..i];
      return Fail;
    }
    return Pass;
  }

  /** The two container checks are duals: `container_not_equal` fails on
      exactly the inputs on which `container_equal` passes. */
  method ContainerChecksAreDual<T(==)>(first: seq<T>, second: seq<T>) returns (equal: ContainerCheck, notEqual: Outcome)
    ensures (equal == Passed) <==> (notEqual == Fail)
  {
    equal := ContainerEqual(first, second);
    notEqual := ContainerNotEqual(first, second);
  }
}
