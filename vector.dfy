/** `phoenix::vector<T, AllocSize>`: a growable vector over one heap buffer,
    grown linearly by `AllocSize` slots whenever `push` finds it full. */
module Vectors {
  import opened Errors

  /** The capacity `push` leaves behind: a full vector first reserves
      `capacity + allocSize` slots. */
  function GrownCapacity(size: nat, capacity: nat, allocSize: nat): nat {
    if size == capacity then capacity + allocSize else capacity
  }

  /** The capacity of a default-constructed vector after `k` pushes. */
  function CapacityAfterPushes(allocSize: nat, k: nat): nat {
    if k == 0 then 0 else GrownCapacity(k - 1, CapacityAfterPushes(allocSize, k - 1), allocSize)
  }

  /** `c` is a whole number of growth steps of `g` slots. */
  ghost predicate IsMultipleOf(c: nat, g: nat)
    decreases c
  {
    c == 0 || (g > 0 && c >= g && IsMultipleOf(c - g, g))
  }

  /** `k` pushes into an empty vector leave the multiple of the growth step
      that lies in `[k, k + allocSize)`, that is `ceil(k / allocSize) * allocSize`
      (there is only one such multiple, by `MultipleInWindowIsUnique`). */
  lemma {:induction false} CapacityAfterPushesRoundsUp(allocSize: nat, k: nat)
    requires allocSize > 0
    ensures IsMultipleOf(CapacityAfterPushes(allocSize, k), allocSize)
    ensures k <= CapacityAfterPushes(allocSize, k) < k + allocSize
  {
    if k > 0 {
      var previous := CapacityAfterPushes(allocSize, k - 1);
      CapacityAfterPushesRoundsUp(allocSize, k - 1);
      if previous == k - 1 {
        assert (previous + allocSize) - allocSize == previous;
      }
    }
  }

  /** Two distinct multiples of `g` are at least `g` apart. */
  lemma {:induction false} MultiplesAreStepApart(a: nat, b: nat, g: nat)
    requires IsMultipleOf(a, g) && IsMultipleOf(b, g) && a < b
    ensures a + g <= b
    decreases a
  {
    if a > 0 {
      MultiplesAreStepApart(a - g, b - g, g);
    }
  }

  /** A window `[k, k + g)` holds at most one multiple of `g`. */
  lemma MultipleInWindowIsUnique(g: nat, k: nat, c: nat, d: nat)
    requires IsMultipleOf(c, g) && k <= c < k + g
    requires IsMultipleOf(d, g) && k <= d < k + g
    ensures c == d
  {
    if c < d { MultiplesAreStepApart(c, d, g); }
    if d < c { MultiplesAreStepApart(d, c, g); }
  }

  /** The push sequence of the unit test, with growth step 4. */
  lemma PushCapacitiesWithStepFour()
    ensures CapacityAfterPushes(4, 3) == 4
    ensures CapacityAfterPushes(4, 4) == 4
    ensures CapacityAfterPushes(4, 5) == 8
  {}

  /** What copy assignment leaves as the destination's elements: it copies all
      of `source` into the buffer but keeps the destination's size. */
  function CopyAssigned<T>(destination: seq<T>, source: seq<T>): seq<T> {
    if |source| > |destination| then source[..|destination|]
    else source + destination[|source|..]
  }

  /** Copy assignment yields an equal vector only when the sizes already agree. */
  lemma CopyAssignedEqualsSourceOnlyForEqualSizes<T>(destination: seq<T>, source: seq<T>)
    ensures |CopyAssigned(destination, source)| == |destination|
    ensures CopyAssigned(destination, source) == source <==> |destination| == |source|
  {
    if |destination| == |source| {
      assert destination[|source|..] == [];
      assert source + [] == source;
    }
  }

  /** The unit-test-shaped counterexample: assigning `{1, 2, 3}` to `{1}`. */
  lemma CopyAssignTruncates()
    ensures CopyAssigned([1], [1, 2, 3]) == [1] != [1, 2, 3]
  {}

  class Vector<T(0)> {
    /** The template argument `AllocSize`. */
    const allocSize: nat
    /** `_data`; null stands for `nullptr`. */
    var data: array?<T>
    var size: nat
    var capacity: nat

    ghost predicate Valid()
      reads this
    {
      size <= capacity &&
      (if data == null then 0 else data.Length) == capacity
    }

    /** The elements `[0, size)`; slots `[size, capacity)` are not part of it. */
    ghost function Elements(): seq<T>
      reads this, data
      requires Valid()
    {
      if data == null then [] else data[..size]
    }

    /** `vector()`: no buffer at all. */
    constructor Empty(allocSize: nat)
      ensures Valid() && this.allocSize == allocSize
      ensures data == null && size == 0 && capacity == 0
    {
      this.allocSize := allocSize;
      data := null;
      size, capacity := 0, 0;
    }

    /** `vector(size)`: `size` slots, each set to the value-initialised `T{}`,
        which is passed in as `valueInit`. */
    constructor Sized(allocSize: nat, n: nat, valueInit: T)
      ensures Valid() && this.allocSize == allocSize && fresh(data)
      ensures size == n && capacity == n
      ensures Elements() == seq(n, _ => valueInit)
    {
      var buffer := new T[n];
      var x := 0;
      while x != n
        invariant x <= n
        invariant forall k | 0 <= k < x :: buffer[k] == valueInit
      {
        buffer[x] := valueInit;
        x := x + 1;
      }
      this.allocSize := allocSize;
      data := buffer;
      size, capacity := n, n;
    }

    /** `vector(size, value)`. */
    constructor Filled(allocSize: nat, n: nat, value: T)
      ensures Valid() && this.allocSize == allocSize && fresh(data)
      ensures size == n && capacity == n
      ensures Elements() == seq(n, _ => value)
    {
      var buffer := new T[n];
      var x := 0;
      while x != n
        invariant x <= n
        invariant forall k | 0 <= k < x :: buffer[k] == value
      {
        buffer[x] := value;
        x := x + 1;
      }
      this.allocSize := allocSize;
      data := buffer;
      size, capacity := n, n;
    }

    /** `vector(std::initializer_list<T>)` and `vector(const std::vector<T>&)`:
        both copy the source in order into a buffer of exactly its length. */
    constructor FromSeq(allocSize: nat, source: seq<T>)
      ensures Valid() && this.allocSize == allocSize && fresh(data)
      ensures size == |source| && capacity == |source|
      ensures Elements() == source
    {
      var buffer := new T[|source|];
      var i := 0;
      while i != |source|
        invariant i <= |source|
        invariant forall k | 0 <= k < i :: buffer[k] == source[k]
      {
        buffer[i] := source[i];
        i := i + 1;
      }
      this.allocSize := allocSize;
      data := buffer;
      size, capacity := |source|, |source|;
    }

    /** Copy construction: a new buffer of `other.size` slots, so the copy's
        capacity is `other.size`, not `other.capacity`. */
    constructor Copy(other: Vector<T>)
      requires other.Valid()
      ensures Valid() && allocSize == other.allocSize && fresh(data)
      ensures size == other.size && capacity == other.size
      ensures Elements() == other.Elements()
    {
      var buffer := new T[other.size];
      var i := 0;
      while i != other.size
        invariant i <= other.size
        invariant forall k | 0 <= k < i :: buffer[k] == other.data[k]
      {
        buffer[i] := other.data[i];
        i := i + 1;
      }
      allocSize := other.allocSize;
      data := buffer;
      size, capacity := other.size, other.size;
    }

    /** Move construction: take over `other`'s buffer, size and capacity and
        leave `other` empty with no buffer. */
    constructor Move(other: Vector<T>)
      requires other.Valid()
      modifies other
      ensures Valid() && allocSize == other.allocSize
      ensures data == old(other.data) && size == old(other.size) && capacity == old(other.capacity)
      ensures Elements() == old(other.Elements())
      ensures other.Valid() && other.data == null && other.size == 0 && other.capacity == 0
    {
      allocSize := other.allocSize;
      data := other.data;
      size, capacity := other.size, other.capacity;
      new;
      other.data := null;
      other.size, other.capacity := 0, 0;
    }

    /** Copy assignment `*this = other`, as written: `reserve(other.size)`,
        then copy every element of `other` into the buffer from the start.
        `size` is never updated (see `CopyAssigned`). */
    method CopyAssign(other: Vector<T>)
      requires Valid() && other.Valid() && other.allocSize == allocSize
      modifies this`data, this`capacity, data
      ensures Valid() && size == old(size)
      ensures Elements() == CopyAssigned(old(Elements()), old(other.Elements()))
      ensures old(other.size) > old(size) ==> fresh(data) && capacity == old(other.size)
      ensures old(other.size) <= old(size) ==> data == old(data) && capacity == old(capacity)
      ensures other.Valid() && other.Elements() == old(other.Elements())
      ensures old(other.size) <= capacity
      ensures data != null ==> data[..old(other.size)] == old(other.Elements())
    {
      ghost var source := other.Elements();
      ghost var previous := Elements();
      Reserve(other.size);
      var i := 0;
      while i != other.size
        invariant Valid() && size == old(size) && i <= other.size <= capacity
        invariant other.Valid() && other.size == |source|
        invariant old(other.size) > old(size) ==> fresh(data) && capacity == old(other.size)
        invariant old(other.size) <= old(size) ==> data == old(data) && capacity == old(capacity)
        invariant forall k | 0 <= k < i :: data[k] == source[k]
        invariant forall k | 0 <= k < other.size :: other.data[k] == source[k]
        invariant forall k | other.size <= k < size :: data[k] == previous[k]
      {
        data[i] := other.data[i];
        i := i + 1;
      }
      assert other.Elements() == source;
      assert data != null ==> data[..other.size] == source;
    }

    /** Copy assignment as evidently intended: equal elements afterwards. */
    method CopyAssignFixed(other: Vector<T>)
      requires Valid() && other.Valid() && other.allocSize == allocSize
      modifies this`data, this`capacity, this`size, data
      ensures Valid() && Elements() == old(other.Elements())
      ensures old(other.size) > old(size) ==> fresh(data) && capacity == old(other.size)
      ensures old(other.size) <= old(size) ==> data == old(data) && capacity == old(capacity)
      ensures other.Valid() && other.Elements() == old(other.Elements())
    {
      CopyAssign(other);
      size := other.size;
    }

    /** Move assignment: take over `other`'s fields, then empty `other`. The
        old buffer of `this` is dropped. On `v = std::move(v)` the second half
        undoes the first, so the vector ends empty with no buffer. */
    method MoveAssign(other: Vector<T>)
      requires Valid() && other.Valid() && other.allocSize == allocSize
      modifies this, other
      ensures Valid() && other.Valid()
      ensures other.data == null && other.size == 0 && other.capacity == 0
      ensures other != this ==> data == old(other.data) && size == old(other.size) && capacity == old(other.capacity)
      ensures other != this ==> Elements() == old(other.Elements())
      ensures other == this ==> data == null && size == 0 && capacity == 0
    {
      data := other.data;
      size := other.size;
      capacity := other.capacity;
      other.data := null;
      other.size := 0;
      other.capacity := 0;
    }

    /** `operator[]`: unchecked; the caller guarantees `i < size`. */
    function Get(i: nat): (r: T)
      reads this, data
      requires Valid() && i < size
      ensures r == Elements()[i]
    {
      data[i]
    }

    /** Writing through the reference `operator[]` returns: only slot `i` changes. */
    method Set(i: nat, value: T)
      requires Valid() && i < size
      modifies data
      ensures Valid() && data[..] == old(data[..])[i := value]
      ensures Elements() == old(Elements())[i := value]
    {
      data[i] := value;
    }

    /** `at(i)`: fails exactly when `i >= size`. */
    function At(i: nat): (r: Result<T>)
      reads this, data
      requires Valid()
      ensures r.Err? <==> i >= size
      ensures r.Err? ==> r.error == IndexOutOfBounds
      ensures r.Ok? ==> r.value == Elements()[i]
    {
      if i >= size then Err(IndexOutOfBounds) else Ok(data[i])
    }

    /** Writing through `at(i)`: throws when `i >= size`, else changes only slot `i`. */
    method SetAt(i: nat, value: T) returns (r: Outcome)
      requires Valid()
      modifies data
      ensures Valid() && (r == Fail <==> i >= size)
      ensures data != null ==> data[..] == if i < size then old(data[..])[i := value] else old(data[..])
      ensures Elements() == if i < size then old(Elements())[i := value] else old(Elements())
    {
      if i >= size {
        return Fail;
      }
      data[i] := value;
      return Pass;
    }

    /** `begin()` as an offset into the buffer: the first element, when there is one. */
    function Begin(): (it: nat)
      reads this, data
      requires Valid()
      ensures it == 0 && it <= size
      ensures size > 0 ==> data != null && data[it] == Elements()[0]
    {
      0
    }

    /** `end()`: one past the last element, so `[begin, end)` spans the elements. */
    function End(): (it: nat)
      reads this, data
      requires Valid()
      ensures it - Begin() == |Elements()|
    {
      size
    }

    function Size(): (n: nat)
      reads this, data
      requires Valid()
      ensures n == |Elements()|
    {
      size
    }

    function Capacity(): (n: nat)
      reads this, data
      requires Valid()
      ensures n >= |Elements()|
      ensures n == if data == null then 0 else data.Length
    {
      capacity
    }

    /** `push(value)`: grow by `allocSize` when full, then append. With a
        growth step of 0 a full vector would be written past its end, so the
        caller must then leave room. */
    method Push(value: T)
      requires Valid() && (size < capacity || allocSize > 0)
      modifies this`data, this`capacity, this`size, data
      ensures Valid()
      ensures Elements() == old(Elements()) + [value]
      ensures capacity == GrownCapacity(old(size), old(capacity), allocSize)
      ensures old(size) < old(capacity) ==> data == old(data)
      ensures old(size) == old(capacity) ==> fresh(data)
    {
      if size == capacity {
        Reserve(capacity + allocSize);
      }
      data[size] := value;
      size := size + 1;
    }

    /** `pop()`: fails on an empty vector, else removes and returns the last
        element; the buffer and the capacity stay as they are. */
    method Pop() returns (r: Result<T>)
      requires Valid()
      modifies this`size
      ensures Valid() && data == old(data) && capacity == old(capacity)
      ensures old(size) == 0 ==> r == Err(PopFromEmpty) && size == 0
      ensures old(size) > 0 ==> r == Ok(old(Elements())[old(size) - 1])
      ensures old(size) > 0 ==> size == old(size) - 1 && Elements() == old(Elements())[..size]
    {
      if size == 0 {
        return Err(PopFromEmpty);
      }
      size := size - 1;
      return Ok(data[size]);
    }

    /** `reserve(n)`: a no-op when `n <= size` (the guard looks at the size,
        not the capacity); otherwise a new buffer of exactly `n` slots, which may
        be smaller than the old capacity, holding the same elements. */
    method Reserve(n: nat)
      requires Valid()
      modifies this`data, this`capacity
      ensures Valid() && size == old(size) && Elements() == old(Elements())
      ensures n <= old(size) ==> data == old(data) && capacity == old(capacity)
      ensures n > old(size) ==> fresh(data) && capacity == n
    {
      if size >= n {
        return;
      }
      var newData := new T[n];
      var x := 0;
      while x != size
        invariant x <= size && Valid() && data == old(data)
        invariant forall k | 0 <= k < x :: newData[k] == data[k]
      {
        newData[x] := data[x];
        x := x + 1;
      }
      data := newData;
      capacity := n;
    }

    /** `resize(n)`: `reserve(n)` and then `size := n`. Shrinking keeps the
        buffer; growing exposes slots whose contents are indeterminate. */
    method Resize(n: nat)
      requires Valid()
      modifies this`data, this`capacity, this`size
      ensures Valid() && size == n
      ensures n <= old(size) ==> data == old(data) && capacity == old(capacity)
      ensures n <= old(size) ==> Elements() == old(Elements())[..n]
      ensures n > old(size) ==> fresh(data) && capacity == n
      ensures n > old(size) ==> Elements()[..old(size)] == old(Elements())
    {
      Reserve(n);
      size := n;
    }
  }

  /** The push/pop unit test with growth step 4. */
  method PushPopScenario() {
    var v := new Vector<int>.Empty(4);
    v.Push(10);
    v.Push(20);
    v.Push(30);
    assert v.size == 3 && v.capacity == 4;
    v.Push(20);
    assert v.size == 4 && v.capacity == 4;
    v.Push(10);
    assert v.size == 5 && v.capacity == 8;
    var last := v.Pop();
    assert last == Ok(10) && v.size == 4 && v.capacity == 8;
    v.Resize(0);
    var failed := v.Pop();
    assert failed == Err(PopFromEmpty);
  }
}
