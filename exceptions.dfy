/** The `std::out_of_range` exceptions the containers throw, one constructor per message,
    and the two result shapes an operation that may throw has in the model. */
module Exceptions {

  datatype Error =
    | EmptyList     // "Empty list"
    | InvalidIndex  // "Invalid index"
    | FullQueue     // "Full queue!"
    | EmptyQueue    // "Empty queue!"
    | FullStack     // "Full stack!"
    | EmptyStack    // "Empty stack!"

  /** Outcome of an operation that returns a value or throws. */
  datatype Result<T> = Ok(value: T) | Throws(error: Error)

  /** Outcome of a `void` operation that may throw. */
  datatype Outcome = Done | Fails(error: Error)
}

/** Arithmetic on `std::size_t`, the 64-bit unsigned counter type of the containers. */
module SizeT {

  const Modulus: int := 0x1_0000_0000_0000_0000

  /** The value an integer takes when converted to `std::size_t`. */
  function Wrap(x: int): (r: nat)
    ensures r < Modulus
    ensures (r - x) % Modulus == 0
    ensures 0 <= x < Modulus ==> r == x
  {
    x % Modulus
  }

  /** `n++` on a `std::size_t`. */
  function Inc(n: nat): (r: nat)
    requires n < Modulus
    ensures r < Modulus
    ensures n + 1 < Modulus ==> r == n + 1
    ensures n + 1 == Modulus ==> r == 0
  {
    Wrap(n + 1)
  }

  /** `n--` on a `std::size_t`: 0 wraps to the largest value. */
  function Dec(n: nat): (r: nat)
    requires n < Modulus
    ensures r < Modulus
    ensures n > 0 ==> r == n - 1
    ensures n == 0 ==> r == Modulus - 1
  {
    Wrap(n - 1)
  }

  /** `n` after `k` successive decrements. */
  function DecTimes(n: nat, k: nat): (r: nat)
    requires n < Modulus
    ensures r < Modulus
    ensures k <= n ==> r == n - k
  {
    if k == 0 then n else Dec(DecTimes(n, k - 1))
  }
}
