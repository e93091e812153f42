# phostdlib core, modelled in Dafny

This project models the header-only core of `phostdlib`, a small educational
clone of parts of the C++ standard library:

- `phoenix::vector<T, AllocSize>`: a growable vector over one heap buffer. It grows linearly by `AllocSize` slots when `push` finds it full.
- `phoenix::array<T, N>`: a fixed buffer of `N` slots.
- Insertion, bubble, selection and bogo sort over a half-open range `[begin, end)` under a comparator `compare(a, b)`. The comparator means "a belongs after b".
- The utilities: `greater`/`lesser`, the six comparators, `swap` and the sortedness oracle `is_sorted`.
- The assertion helpers of class `test`.
- The `iterator_flag` bit operations.

One Dafny module per header:

| file | module | header |
|---|---|---|
| errors.dfy | `Errors` | the `std::out_of_range` throw sites, shared by all headers |
| utility.dfy | `Utility` | include/phoenix/utility.hpp |
| sort.dfy | `Sort` | include/phoenix/sort.hpp |
| vector.dfy | `Vectors` | include/phoenix/vector.hpp |
| array.dfy | `Arrays` | include/phoenix/array.hpp |
| test.dfy | `Assertions` | include/phoenix/test.hpp |
| iterator_flag.dfy | `IteratorFlags` | include/phoenix/iterator_flag.hpp |
| scenarios.dfy | `SortScenarios` | the sort unit tests, replayed on a vector |

Modelling choices:

- The vector is a class with the source's three fields. `data: array?<T>` is `_data`, and `null` is `nullptr`. `size` and `capacity` are `_size` and `_capacity`. The template argument `AllocSize` is the constant `allocSize`.
- `Valid()` is the class invariant `size <= capacity == data.Length`.
- `Elements()` is the abstract view `data[..size]`. Slots `[size, capacity)` are not part of it and stay unconstrained.
- The fixed array is a class with a constant buffer of `n` slots.
- Iterators (`begin`/`end`, raw `T*`) are integer offsets into the buffer. The sorts take an array with `lo`/`hi` offsets, so a vector is sorted through `v.data`, `v.Begin()` and `v.End()`.
- Exceptions become `Result`/`Outcome` values. The three `std::out_of_range` throw sites are told apart by an `Error` kind.
- C++ value-initialisation `T{}` has no generic Dafny counterpart. It is passed in as a `valueInit` argument.
- The random draws of `bogo_sort` are nondeterministic choices (`:|`) of an index in the range.

Where the code and the informal description of the library disagree, the model follows the code:

- **Sort direction.** The default comparator `is_greater` swaps when the left element is greater. So every sort leaves the range non-decreasing under `is_greater` and non-increasing under `is_lesser` (`Utility.SortedByGreaterIsAscending`). For example, insertion sort turns `{3,1,2}` into `{1,3,2}` and then `{1,2,3}`.
- **Empty ranges.** The description calls empty ranges vacuously sorted. In the code, `is_sorted`, `insertion_sort` and `bubble_sort` start from `begin + 1`, so an empty range is undefined behaviour. These three require a non-empty range. `selection_sort` accepts an empty one.
- **Null buffer.** The description ties a null buffer to capacity 0. The code's `vector(0)` allocates `new T[0]`, which is not null. The model allows a non-null buffer of length 0.
- **Error kinds.** All three error kinds are `std::out_of_range` in the code.
- **Self-move.** Self-move-assignment empties the vector instead of leaving it intact.

## Model

| member | source | states |
|---|---|---|
| `Utility.GreaterIsMaximum` | include/phoenix/utility.hpp:20-23 | `greater` returns one of its arguments and is at least both; on a tie it returns `second` |
| `Utility.LesserIsMinimum` | include/phoenix/utility.hpp:25-28 | `lesser` returns one of its arguments and is at most both; on a tie it returns `second` |
| `Utility.ComparatorDualities` | include/phoenix/utility.hpp:30-58 | `is_greater(a,b) == is_lesser(b,a)`, `is_greater_or_equal == !is_lesser`, `is_lesser_or_equal == !is_greater`, `is_not_equal == !is_equal` |
| `Utility.DefaultComparatorsAreStrictWeakOrders` | include/phoenix/utility.hpp:30-43 | `is_greater` and `is_lesser` on `int` are asymmetric and negatively transitive, which the sortedness proofs need |
| `Utility.StrictWeakOrderIsTransitive` | include/phoenix/utility.hpp:30-43 | under a strict weak order, "belongs after" is transitive |
| `Utility.NotAfterIsTransitive` | include/phoenix/utility.hpp:30-43 | under a strict weak order, "does not belong after" is transitive |
| `Utility.SortedIsPairwise` | include/phoenix/utility.hpp:68-76 | under a strict weak order, the adjacent-pair test of `is_sorted` holds iff every pair `i < j` is in order |
| `Utility.SortedByGreaterIsAscending` | include/phoenix/utility.hpp:68-76 | `is_sorted(..., is_greater)` holds exactly on non-decreasing sequences |
| `Utility.SortedByLesserIsDescending` | include/phoenix/utility.hpp:68-76 | `is_sorted(..., is_lesser)` holds exactly on non-increasing sequences |
| `Utility.AscendingIsNotDescending` | tests/test_utility.cpp:25-37 | a strictly ascending range of length at least 2 is sorted under `is_greater` and not under `is_lesser` |
| `Utility.Swapped` | include/phoenix/utility.hpp:60-65 | the exchanged sequence holds `s[j]` at `i`, `s[i]` at `j`, and `s` everywhere else |
| `Utility.SwappedTwiceIsIdentity` | include/phoenix/utility.hpp:60-65 | swapping the same two cells twice restores the original |
| `Utility.Swap` | include/phoenix/utility.hpp:60-65 | the array after `swap` is the exchanged sequence, with the same multiset |
| `Utility.IsSorted` | include/phoenix/utility.hpp:68-76 | on a non-empty range, returns false exactly when some adjacent pair has `compare(x, y)`, and true otherwise |
| `Sort.RangeMultiset` | include/phoenix/sort.hpp:15 | a whole-array permutation that fixes every cell outside `[lo, hi)` permutes the range |
| `Sort.SortedBetweenIsSorted` | include/phoenix/sort.hpp:13-17 | adjacent order of the cells `[lo, hi)` is `is_sorted` of the slice |
| `Sort.SettledAfterSwap` | include/phoenix/sort.hpp:25-27 | a swap at or after `p` keeps a settled prefix `[lo, p)` settled |
| `Sort.ShortRangeUnchanged` | include/phoenix/sort.hpp:13-47 | a sort result that permutes a range of length 0 or 1 and fixes the outside equals the input |
| `Sort.InsertionSort` | include/phoenix/sort.hpp:9-18 | requires a non-empty range; cells outside are untouched; the range is permuted; under an asymmetric comparator the range ends sorted |
| `Sort.BubblePass` | include/phoenix/sort.hpp:25-28 | one pass touches only `[i-1, hi)` and permutes; under a strict weak order it extends the settled prefix to `[lo, i)` |
| `Sort.BubbleSort` | include/phoenix/sort.hpp:20-30 | requires a non-empty range; outside untouched, range permuted, sorted under a strict weak order |
| `Sort.FindExtremum` | include/phoenix/sort.hpp:37-42 | the chosen index lies in `[i, hi)` and nothing after it belongs before it; under a strict weak order no cell of the suffix belongs before it, and every earlier cell belongs after it (it is the earliest extremum) |
| `Sort.SelectionSort` | include/phoenix/sort.hpp:32-48 | accepts an empty range; outside untouched, range permuted, sorted under a strict weak order |
| `Sort.BogoRound` | include/phoenix/sort.hpp:59-63 | `length` swaps at arbitrary indices of the range fix the outside and keep the multiset |
| `Sort.BogoSort` | include/phoenix/sort.hpp:50-69 | the range is permuted and the outside untouched; the result is true exactly when `is_sorted` holds of the final range |
| `Errors.NegativeIndexIsHuge` | tests/test_vector.cpp:107-111 | a negative `int` index converted to `size_t` exceeds any container size below 2^63 |
| `Vectors.CapacityAfterPushesRoundsUp` | include/phoenix/vector.hpp:115-120 | after `k` pushes from empty, the capacity is the multiple of `AllocSize` in `[k, k + AllocSize)`, i.e. `ceil(k/AllocSize)*AllocSize` |
| `Vectors.MultiplesAreStepApart` | include/phoenix/vector.hpp:117-118 | two distinct multiples of the growth step are at least one step apart |
| `Vectors.MultipleInWindowIsUnique` | include/phoenix/vector.hpp:117-118 | the capacity characterised above is unique |
| `Vectors.PushCapacitiesWithStepFour` | tests/test_vector.cpp:62-81 | with `AllocSize = 4`, three pushes give capacity 4, four give 4, five give 8 |
| `Vectors.CopyAssignedEqualsSourceOnlyForEqualSizes` | include/phoenix/vector.hpp:64-71 | copy assignment keeps the destination's size, and yields the source's elements only when the sizes already agree |
| `Vectors.CopyAssignTruncates` | include/phoenix/vector.hpp:64-71 | assigning `{1,2,3}` to `{1}` leaves `{1}` |
| `Vectors.Vector.Empty` | include/phoenix/vector.hpp:16 | the default vector has no buffer, size 0 and capacity 0 |
| `Vectors.Vector.Sized` | include/phoenix/vector.hpp:18-23 | `size == capacity == n`, fresh buffer, every element `T{}` |
| `Vectors.Vector.Filled` | include/phoenix/vector.hpp:25-30 | `size == capacity == n`, fresh buffer, every element `value` |
| `Vectors.Vector.FromSeq` | include/phoenix/vector.hpp:32-46 | `size == capacity == |source|`, fresh buffer, elements equal the source in order |
| `Vectors.Vector.Copy` | include/phoenix/vector.hpp:49-55 | equal elements in a fresh buffer; capacity is `other.size`, not `other.capacity` |
| `Vectors.Vector.Move` | include/phoenix/vector.hpp:57-62 | takes `other`'s buffer, size and capacity; `other` ends with no buffer, size 0 and capacity 0 |
| `Vectors.Vector.CopyAssign` | include/phoenix/vector.hpp:64-71 | size unchanged; buffer `[0, other.size)` holds other's elements; reallocates exactly when `other.size > size`; `other` unchanged |
| `Vectors.Vector.CopyAssignFixed` | include/phoenix/vector.hpp:64-71 | with `_size = other._size` added, the elements equal other's |
| `Vectors.Vector.MoveAssign` | include/phoenix/vector.hpp:73-82 | the destination takes the source's fields and the source ends empty; `v = std::move(v)` leaves `v` empty |
| `Vectors.Vector.Get` | include/phoenix/vector.hpp:88-89 | `[i]` for `i < size` reads element `i` |
| `Vectors.Vector.Set` | include/phoenix/vector.hpp:88 | writing through `[i]` changes only slot `i` |
| `Vectors.Vector.At` | include/phoenix/vector.hpp:92-102 | fails exactly when `i >= size`, else returns element `i` |
| `Vectors.Vector.SetAt` | include/phoenix/vector.hpp:92-96 | writing through `at(i)` fails exactly when `i >= size`, else changes only slot `i` |
| `Vectors.Vector.Begin` | include/phoenix/vector.hpp:105 | `begin()` is offset 0 and designates the first element when there is one |
| `Vectors.Vector.End` | include/phoenix/vector.hpp:106 | `[begin, end)` spans exactly the elements |
| `Vectors.Vector.Size` | include/phoenix/vector.hpp:130 | `size()` is the number of elements |
| `Vectors.Vector.Capacity` | include/phoenix/vector.hpp:131 | `capacity()` is the buffer length and at least the size |
| `Vectors.Vector.Push` | include/phoenix/vector.hpp:115-120 | appends `value` and keeps earlier elements; capacity grows by exactly `AllocSize` when full, else the buffer stays |
| `Vectors.Vector.Pop` | include/phoenix/vector.hpp:122-127 | fails on an empty vector; otherwise returns the old last element and drops it; buffer and capacity unchanged |
| `Vectors.Vector.Reserve` | include/phoenix/vector.hpp:136-154 | no-op when `n <= size`; otherwise capacity becomes exactly `n` (possibly smaller than before), fresh buffer, same elements and size |
| `Vectors.Vector.Resize` | include/phoenix/vector.hpp:156-159 | `size := n` after `reserve(n)`; shrinking keeps buffer and prefix; growing keeps the old elements as a prefix |
| `Arrays.FixedArray.ValueInitialised` | include/phoenix/array.hpp:47 | all `N` slots are `T{}` |
| `Arrays.FixedArray.Filled` | include/phoenix/array.hpp:49-51 | all `N` slots are `value` |
| `Arrays.FixedArray.FromInitList` | include/phoenix/array.hpp:53-61 | fails exactly when the list is longer than `N`; otherwise the list followed by `T{}` padding |
| `Arrays.FixedArray.Copy` | include/phoenix/array.hpp:63-66 | all `N` elements copied index-wise into a fresh buffer |
| `Arrays.FixedArray.FromStdArray` | include/phoenix/array.hpp:74-77 | all `N` elements of the `std::array` copied index-wise |
| `Arrays.FixedArray.Assign` | include/phoenix/array.hpp:68-72 | `operator=` leaves the elements equal to other's and other unchanged |
| `Arrays.FixedArray.Get` | include/phoenix/array.hpp:89-90 | `[i]` for `i < N` reads slot `i` |
| `Arrays.FixedArray.Set` | include/phoenix/array.hpp:89 | writing through `[i]` changes only slot `i` |
| `Arrays.FixedArray.At` | include/phoenix/array.hpp:92-99 | fails exactly when `i >= N`, else returns slot `i` |
| `Arrays.FixedArray.SetAt` | include/phoenix/array.hpp:92-95 | writing through `at(i)` fails exactly when `i >= N`, else changes only slot `i` |
| `Arrays.FixedArray.Begin` | include/phoenix/array.hpp:80 | `begin()` is offset 0 and designates the first element when there is one |
| `Arrays.FixedArray.End` | include/phoenix/array.hpp:81 | `[begin, end)` spans exactly `N` slots |
| `Arrays.FixedArray.Size` | include/phoenix/array.hpp:101 | `size()` is `N`, the number of slots |
| `Assertions.ChecksMatchComparators` | include/phoenix/test.hpp:34-98 | `eq`, `neq`, `gt`, `lt`, `geq`, `leq` pass exactly when `==`, `!=`, `>`, `<`, `>=`, `<=` hold |
| `Assertions.ChecksAreComplementary` | include/phoenix/test.hpp:34-98 | `eq` fails iff `neq` passes, `gt` fails iff `leq` passes, `lt` fails iff `geq` passes |
| `Assertions.ContainerEqual` | include/phoenix/test.hpp:100-126 | passes iff the containers are equal; on a size difference reports whether the first is bigger; otherwise reports the smallest differing index |
| `Assertions.ContainerNotEqual` | include/phoenix/test.hpp:128-151 | fails iff the sizes agree and every pair is equal; passes on a size difference |
| `Assertions.ContainerChecksAreDual` | include/phoenix/test.hpp:100-151 | `container_not_equal` fails exactly when `container_equal` passes |
| `IteratorFlags.OrAssign` | include/phoenix/iterator_flag.hpp:30-32 | `a \|= b` stores `a \| b` and returns it |
| `IteratorFlags.AndAssign` | include/phoenix/iterator_flag.hpp:34-36 | `a &= b` stores `a & b` and returns it |
| `IteratorFlags.XorAssign` | include/phoenix/iterator_flag.hpp:38-40 | `a ^= b` stores `a ^ b` and returns it |
| `IteratorFlags.CategoriesContainTheirPredecessors` | include/phoenix/iterator_flag.hpp:7-11 | `forward` contains `input`, `bidirectional` contains `forward`, `random_access` contains `bidirectional` |
| `IteratorFlags.EnumeratorValues` | include/phoenix/iterator_flag.hpp:7-11 | `forward == 0x05`, `bidirectional == 0x0D`, `random_access == 0x1F`, which includes the `output` bit |
| `IteratorFlags.ComplementIsInvolution` | include/phoenix/iterator_flag.hpp:26-28 | `~~x == x`; `x & ~x == 0` and `x \| ~x` is all ones |
| `IteratorFlags.SelfIdentities` | include/phoenix/iterator_flag.hpp:14-24 | `x ^ x == 0`, `x \| x == x`, `x & x == x` |

## Left out

- Printing: `print` and `operator<<` of vector (include/phoenix/vector.hpp:161-175) and array (include/phoenix/array.hpp:103-115), and `pair`'s printer. These are stream I/O. The `operator<<` versions also read one slot past the end and underflow on empty containers.
- `pair` (include/phoenix/utility.hpp:8-18): a plain record with a printer; nothing to prove.
- Memory management: `new[]`/`delete[]` and the destructor. Dafny is garbage collected. The old buffer that move assignment drops without freeing is not modelled as a leak.
- The contents of uninitialised buffer slots (`[size, capacity)`, and slots exposed by `resize` growth) are left unconstrained.
- `run_test` and the `test_exception` messages: exception catching and console output. The assertion checks return `Fail` instead of throwing.
- `std::initializer_list`, `std::vector` and `std::array` sources are modelled as `seq<T>`. The defaulted-comparator template machinery is dropped; every sort takes its comparator explicitly.
- `data()`, `cbegin()`/`cend()` and the `const` overloads of `[]`, `at`, `begin` and `end` behave like their non-const counterparts.
- Pointer-identity checks and iterator arithmetic (`++`, `--`, `+=`, `-=`) are plain integer arithmetic on offsets and have no separate members.
- The duplicate C++14 branch of include/phoenix/array.hpp:15-45 is modelled once. Its `operator=` also lacks `return *this`.
- `Sort.BogoSort`: the source's loop is unbounded and uses a time-seeded `std::mt19937`. The model stops after `rounds` shuffles and reports whether the range is sorted. Its swap indices are arbitrary choices in the range. Termination is not modelled.
- `Sort.InsertionSort`, `Sort.BubbleSort`, `Sort.SelectionSort`: sortedness is proved under an asymmetric comparator (insertion) or a strict weak order (bubble, selection). For an arbitrary comparator only the permutation property is proved.
- `Vectors.Vector.Push`: sizes and capacities are unbounded naturals, so the `size_t` wrap-around of `capacity + AllocSize` is not modelled. With `AllocSize == 0` a full vector would be written past its end. Push therefore requires room or a positive step.
- `Utility.GreaterIsMaximum` and `Utility.LesserIsMinimum` are stated on `int`, where the tie rule ("returns `second`") cannot be told apart from returning `first`.
- The ordering checks `gt`, `lt`, `geq` and `leq` are stated on `int`. `eq` and `neq` are generic over types with equality.
- The width of `unsigned` behind `iterator_flag` is taken to be 32 bits.

## Findings

| source | as written | input that shows it | evidently intended | confidence | as-written member | corrected member |
|---|---|---|---|---|---|---|
| include/phoenix/vector.hpp:64-71 | copy assignment reserves and copies `other.size` elements but never sets `_size` | `v = {1}`, `w = {1, 2, 3}`: after `v = w`, `v` still has size 1 and holds `{1}`; a longer `v` keeps its trailing elements | `_size = other._size` after the copy, so that `v` equals `w` | high; not executed | `Vectors.Vector.CopyAssign`, `Vectors.CopyAssignTruncates` | `Vectors.Vector.CopyAssignFixed` |
