/** `phoenix::array<T, N>`: a fixed buffer of `N` slots that is never
    reallocated. The C++14 `constexpr` branch and the older branch of the
    header define the same members and are modelled once. */
module Arrays {
  import opened Errors

  class FixedArray<T(0)> {
    /** The template argument `N`. */
    const n: nat
    /** `_data[N]`, inline in the object in the source. */
    const data: array<T>

    ghost predicate Valid()
      reads this
    {
      data.Length == n
    }

    ghost function Elements(): seq<T>
      reads this, data
      requires Valid()
    {
      data[..]
    }

    /** `array()`: `_data{}` value-initialises every slot to `T{}`, which is
        passed in as `valueInit`. */
    constructor ValueInitialised(n: nat, valueInit: T)
      ensures Valid() && this.n == n && fresh(data)
      ensures Elements() == seq(n, _ => valueInit)
    {
      this.n := n;
      data := new T[n](_ => valueInit);
    }

    /** `array(value)`: every one of the `N` slots set to `value`. */
    constructor Filled(n: nat, value: T)
      ensures Valid() && this.n == n && fresh(data)
      ensures Elements() == seq(n, _ => value)
    {
      var buffer := new T[n];
      var x := 0;
      while x != n
        invariant x <= n
        invariant forall k | 0 <= k < x :: buffer[k] == value
      {
        buffer[x] := value;
        x := x + 1;
      }
      this.n := n;
      data := buffer;
    }

    /** `array(std::initializer_list<T>)`: throws when the list is longer
        than `N`; otherwise the list fills the first slots and the rest keep
        their value-initialised `T{}`. */
    static method FromInitList(n: nat, valueInit: T, list: seq<T>) returns (r: Result<FixedArray<T>>)
      ensures r.Err? <==> |list| > n
      ensures r.Err? ==> r.error == InitListTooLarge
      ensures r.Ok? ==> fresh(r.value) && fresh(r.value.data) && r.value.Valid() && r.value.n == n
      ensures r.Ok? ==> r.value.Elements() == list + seq(n - |list|, _ => valueInit)
    {
      if |list| > n {
        return Err(InitListTooLarge);
      }
      var result := new FixedArray.ValueInitialised(n, valueInit);
      var i := 0;
      while i != |list|
        invariant i <= |list| && result.Valid() && fresh(result.data)
        invariant forall k | 0 <= k < i :: result.data[k] == list[k]
        invariant forall k | |list| <= k < n :: result.data[k] == valueInit
      {
        result.data[i] := list[i];
        i := i + 1;
      }
      assert result.Elements() == list + seq(n - |list|, _ => valueInit);
      return Ok(result);
    }

    /** Copy construction: all `N` elements copied index-wise. */
    constructor Copy(other: FixedArray<T>)
      requires other.Valid()
      ensures Valid() && n == other.n && fresh(data)
      ensures Elements() == other.Elements()
    {
      var buffer := new T[other.n];
      var i := 0;
      while i != other.n
        invariant i <= other.n
        invariant forall k | 0 <= k < i :: buffer[k] == other.data[k]
      {
        buffer[i] := other.data[i];
        i := i + 1;
      }
      n := other.n;
      data := buffer;
    }

    /** `array(const std::array<T, N>&)`: a source of exactly `N` elements. */
    constructor FromStdArray(n: nat, source: seq<T>)
      requires |source| == n
      ensures Valid() && this.n == n && fresh(data)
      ensures Elements() == source
    {
      var buffer := new T[n];
      var i := 0;
      while i != n
        invariant i <= n
        invariant forall k | 0 <= k < i :: buffer[k] == source[k]
      {
        buffer[i] := source[i];
        i := i + 1;
      }
      this.n := n;
      data := buffer;
    }

    /** `operator=`: overwrite all `N` slots with `other`'s elements. */
    method Assign(other: FixedArray<T>)
      requires Valid() && other.Valid() && other.n == n
      modifies data
      ensures Valid() && Elements() == old(other.Elements())
      ensures other.Elements() == old(other.Elements())
    {
      ghost var source := other.Elements();
      var i := 0;
      while i != n
        invariant i <= n
        invariant forall k | 0 <= k < i :: data[k] == source[k]
        invariant forall k | 0 <= k < n :: other.data[k] == source[k]
      {
        data[i] := other.data[i];
        i := i + 1;
      }
      assert other.Elements() == source;
    }

    /** `operator[]`: unchecked; the caller guarantees `i < N`. */
    function Get(i: nat): (r: T)
      reads this, data
      requires Valid() && i < n
      ensures r == Elements()[i]
    {
      data[i]
    }

    /** Writing through `operator[]`: only slot `i` changes. */
    method Set(i: nat, value: T)
      requires Valid() && i < n
      modifies data
      ensures Elements() == old(Elements())[i := value]
    {
      data[i] := value;
    }

    /** `at(i)`: fails exactly when `i >= N`. */
    function At(i: nat): (r: Result<T>)
      reads this, data
      requires Valid()
      ensures r.Err? <==> i >= n
      ensures r.Err? ==> r.error == IndexOutOfBounds
      ensures r.Ok? ==> r.value == Elements()[i]
    {
      if i >= n then Err(IndexOutOfBounds) else Ok(data[i])
    }

    /** Writing through `at(i)`: throws when `i >= N`, else changes only slot `i`. */
    method SetAt(i: nat, value: T) returns (r: Outcome)
      requires Valid()
      modifies data
      ensures r == Fail <==> i >= n
      ensures Elements() == if i < n then old(Elements())[i := value] else old(Elements())
    {
      if i >= n {
        return Fail;
      }
      data[i] := value;
      return Pass;
    }

    /** `begin()` as an offset into the buffer: slot 0 when `N > 0`. */
    function Begin(): (it: nat)
      reads this, data
      requires Valid()
      ensures it == 0 && it <= n
      ensures n > 0 ==> data[it] == Elements()[0]
    {
      0
    }

    /** `end()`: `[begin, end)` spans all `N` slots. */
    function End(): (it: nat)
      reads this, data
      requires Valid()
      ensures it - Begin() == |Elements()|
    {
      n
    }

    /** `size()` is always `N`. */
    function Size(): (s: nat)
      reads this, data
      requires Valid()
      ensures s == |Elements()| == data.Length
    {
      n
    }
  }

  /** The construction unit test: a short init-list is padded with `T{}`, a
      long one throws. */
  method ConstructionScenario() {
    var d := FixedArray.FromInitList(5, 0, [2, 3, 4]);
    assert d.Ok? && d.value.Elements() == [2, 3, 4, 0, 0];
    var e := FixedArray<int>.FromInitList(3, 0, [2, 3, 4, 5, 6]);
    assert e == Err(InitListTooLarge);
  }
}
