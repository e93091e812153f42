/** Failure values shared by the containers and the assertion helpers.
    Every exception the library throws is a `std::out_of_range`; the kind
    records which of the three throw sites raised it. */
module Errors {

  datatype Error =
    | IndexOutOfBounds   // `at(i)` with `i >= size`
    | PopFromEmpty       // `pop()` on an empty vector
    | InitListTooLarge   // fixed array built from a list longer than `N`

  datatype Result<T> = Ok(value: T) | Err(error: Error)

  /** The effect of a void operation that either returns or throws. */
  datatype Outcome = Pass | Fail

  /** The implicit conversion of a signed argument to the `std::size_t`
      parameter of `at`: wrap-around modulo 2^64. */
  function ToSizeT(i: int): nat {
    i % 0x1_0000_0000_0000_0000
  }

  /** A negative `int` index such as `at(-3)` arrives as a huge `size_t`,
      beyond any container smaller than 2^63 elements. */
  lemma NegativeIndexIsHuge(i: int, size: nat)
    requires -0x8000_0000 <= i < 0 && size < 0x8000_0000_0000_0000
    ensures ToSizeT(i) == 0x1_0000_0000_0000_0000 + i
    ensures ToSizeT(i) >= size
  {}
}
