/**
 * How the container's operations report failure, and the 32-bit unsigned
 * arithmetic of its index parameters.
 */
module Outcomes {

  /** The exceptions the container throws. */
  datatype Error =
    | InvalidArgument   // std::invalid_argument
    | OutOfRange        // std::out_of_range
    | GenericException  // a plain std::exception: what `catch (std::exception& e) { throw e; }` rethrows

  /** The value an operation returns, or the exception it throws instead. */
  datatype Result<+R> = Ok(value: R) | Err(error: Error)

  /** How an operation without a return value ends: normally, or by throwing. */
  datatype Outcome = Done | Fail(error: Error)

  const U32Modulus: int := 0x1_0000_0000

  /** The values of C++ `unsigned int`. */
  type u32 = x: int | 0 <= x < 0x1_0000_0000

  /** The values of C++ `int`; a counter of this type that would leave them overflows, which is undefined behaviour. */
  type i32 = x: int | -0x8000_0000 <= x < 0x8000_0000

  /** `x` converted to `unsigned int`: C++ unsigned arithmetic is taken modulo 2^32. */
  function Wrap32(x: int): (r: u32)
    ensures 0 <= x < U32Modulus ==> r == x
    ensures -U32Modulus <= x < 0 ==> r == x + U32Modulus
    ensures U32Modulus <= x < 2 * U32Modulus ==> r == x - U32Modulus
    ensures 0 <= x ==> r <= x
  {
    x % U32Modulus
  }

  /**
   * `x` converted to a 32-bit `int` by way of `unsigned int`: the value is
   * taken modulo 2^32 and read as two's complement, so an unsigned value of
   * 2^31 or more comes back negative.
   */
  function Int32Of(x: int): (r: int)
    ensures -0x8000_0000 <= r < 0x8000_0000
    ensures -0x8000_0000 <= x < 0x8000_0000 ==> r == x
    ensures 0x8000_0000 <= x < U32Modulus ==> r == x - U32Modulus
    ensures 0 <= x ==> r <= x
  {
    var w := Wrap32(x);
    if w < 0x8000_0000 then w else w - U32Modulus
  }

  /** Adding an already wrapped value wraps to the same result as adding the value itself. */
  lemma WrapAdd(a: int, b: int)
    ensures Wrap32(a + Wrap32(b)) == Wrap32(a + b)
  {
    var q := b / U32Modulus;
    assert b == q * U32Modulus + Wrap32(b);
    assert a + b == (a + Wrap32(b)) + q * U32Modulus;
  }
}
