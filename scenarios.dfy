/** The unit tests of the sorts, replayed on the model: a vector is built,
    its `[begin, end)` offsets are handed to a sort, and `is_sorted` with the
    same comparator accepts the result. */
module SortScenarios {
  import opened Utility
  import opened Sort
  import opened Vectors

  method SortVectorBothWays() {
    var v := new Vector<int>.FromSeq(16, [2, 8, 4, 1, 3]);
    DefaultComparatorsAreStrictWeakOrders();
    InsertionSort(v.data, v.Begin(), v.End(), IsGreater);
    assert Sorted(v.Elements(), IsGreater) by { assert v.data[0..5] == v.Elements(); }
    var ascending := IsSorted(v.data, v.Begin(), v.End(), IsGreater);
    assert ascending;
    SelectionSort(v.data, v.Begin(), v.End(), IsLesser);
    var descending := IsSorted(v.data, v.Begin(), v.End(), IsLesser);
    assert descending;
    BubbleSort(v.data, v.Begin(), v.End(), IsGreater);
    assert multiset(v.Elements()) == multiset([2, 8, 4, 1, 3]) by { assert v.data[0..5] == v.Elements(); }
  }
}
