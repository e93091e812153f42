/** `enum class iterator_flag : unsigned` and its bitwise operators. The
    underlying `unsigned` is taken to be 32 bits wide. */
module IteratorFlags {

  type Flag = bv32

  const Input: Flag := 0x01
  const Output: Flag := 0x02
  const Forward: Flag := 0x04 | Input
  const Bidirectional: Flag := 0x08 | Forward
  const RandomAccess: Flag := 0x16 | Bidirectional

  function Or(first: Flag, second: Flag): Flag { first | second }
  function And(first: Flag, second: Flag): Flag { first & second }
  function Xor(first: Flag, second: Flag): Flag { first ^ second }
  /** `operator~`: complements all 32 bits of the underlying value. */
  function Not(it: Flag): Flag { !it }

  /** An `iterator_flag` variable, the left operand of the compound operators. */
  class FlagVariable {
    var value: Flag

    constructor (value: Flag)
      ensures this.value == value
    {
      this.value := value;
    }
  }

  /** `first |= second`: store `first | second` and return it. */
  method OrAssign(first: FlagVariable, second: Flag) returns (r: Flag)
    modifies first
    ensures first.value == Or(old(first.value), second) && r == first.value
  {
    first.value := Or(first.value, second);
    r := first.value;
  }

  /** `first &= second`: store `first & second` and return it. */
  method AndAssign(first: FlagVariable, second: Flag) returns (r: Flag)
    modifies first
    ensures first.value == And(old(first.value), second) && r == first.value
  {
    first.value := And(first.value, second);
    r := first.value;
  }

  /** `first ^= second`: store `first ^ second` and return it. */
  method XorAssign(first: FlagVariable, second: Flag) returns (r: Flag)
    modifies first
    ensures first.value == Xor(old(first.value), second) && r == first.value
  {
    first.value := Xor(first.value, second);
    r := first.value;
  }

  /** Each category contains the bits of the one it builds on. */
  lemma CategoriesContainTheirPredecessors()
    ensures And(Forward, Input) == Input
    ensures And(Bidirectional, Forward) == Forward
    ensures And(RandomAccess, Bidirectional) == Bidirectional
  {}

  /** The values the enumerators evaluate to. Because the literal for
      `random_access` is `0x16`, it also carries the `output` bit. */
  lemma EnumeratorValues()
    ensures Forward == 0x05 && Bidirectional == 0x0D && RandomAccess == 0x1F
    ensures And(RandomAccess, Output) == Output
    ensures And(Bidirectional, Output) == 0
  {}

  lemma ComplementIsInvolution(x: Flag)
    ensures Not(Not(x)) == x
    ensures And(x, Not(x)) == 0 && Or(x, Not(x)) == 0xFFFF_FFFF
  {}

  lemma SelfIdentities(x: Flag)
    ensures Xor(x, x) == 0 && Or(x, x) == x && And(x, x) == x
  {}
}
