/** Two's-complement arithmetic of a C# `int`: `++` and `--` outside a
    `checked` block wrap around instead of failing. */
module Int32 {

  const Modulus: int := 0x1_0000_0000
  const MinValue: int := -0x8000_0000
  const MaxValue: int := 0x7fff_ffff

  type int32 = x: int | MinValue <= x <= MaxValue

  /** `x++` on a C# `int`: the largest value wraps to the smallest. */
  function Increment(x: int32): (r: int32)
    ensures x < MaxValue ==> r == x + 1
    ensures r == Wrap(x + 1)
  {
    if x == MaxValue then MinValue else x + 1
  }

  /** `x--` on a C# `int`: the smallest value wraps to the largest. */
  function Decrement(x: int32): (r: int32)
    ensures x > MinValue ==> r == x - 1
    ensures r == Wrap(x - 1)
  {
    if x == MinValue then MaxValue else x - 1
  }

  /** The 32-bit value that unchecked C# arithmetic stores for the
      mathematical result `x`. */
  function Wrap(x: int): (r: int32)
    ensures (x - r) % Modulus == 0
    ensures MinValue <= x <= MaxValue ==> r == x
  {
    (x - MinValue) % Modulus + MinValue
  }

  /** Adding to a stored 32-bit value and wrapping again gives the same
      value as wrapping the whole mathematical sum once. */
  lemma WrapAdd(y: int, d: int)
    ensures Wrap(Wrap(y) + d) == Wrap(y + d)
  {
  }

  /** `++` on the 32-bit value of `y` stores the 32-bit value of `y + 1`. */
  lemma IncrementWraps(y: int)
    ensures Increment(Wrap(y)) == Wrap(y + 1)
  {
  }

  /** `--` on the 32-bit value of `y` stores the 32-bit value of `y - 1`. */
  lemma DecrementWraps(y: int)
    ensures Decrement(Wrap(y)) == Wrap(y - 1)
  {
  }
}
