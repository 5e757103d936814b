/**
 * Error results, the fixed-width integer ranges of the platform (LP64: `long` is
 * 64 bits) and the one arithmetic fact both representations need spelled out.
 */
module Wrappers {

  /** The exceptions (and the process exit) the library can raise, with the source's messages. */
  datatype Error =
    | InvalidArgument(message: string)   // std::invalid_argument
    | LogicError(message: string)        // std::logic_error
    | OutOfRange                         // std::out_of_range raised by stoi / stol / stoll
    | NoConversion                       // std::invalid_argument raised by stoi / stol / stoll on "" or "-"
    | DivisionByZero                     // the divisor of / or % is zero
    | InvalidInput(input: string)        // "Invalid input! Expected an integer, got '...'" followed by exit

  datatype Result<T> = Success(value: T) | Failure(error: Error) {
    predicate IsFailure() { Failure? }

    function PropagateFailure<U>(): Result<U>
      requires Failure?
    {
      Failure(error)
    }

    function Extract(): T
      requires Success?
    {
      value
    }
  }

  datatype Option<T> = None | Some(value: T)

  const INT_MIN: int := -0x8000_0000
  const INT_MAX: int := 0x7fff_ffff
  const LONG_MIN: int := -0x8000_0000_0000_0000
  const LONG_MAX: int := 0x7fff_ffff_ffff_ffff
  const LLONG_MIN: int := -0x8000_0000_0000_0000
  const LLONG_MAX: int := 0x7fff_ffff_ffff_ffff

  predicate IsInt(n: int) { INT_MIN <= n <= INT_MAX }
  predicate IsLong(n: int) { LONG_MIN <= n <= LONG_MAX }
  predicate IsLongLong(n: int) { LLONG_MIN <= n <= LLONG_MAX }

  /** Multiplication is associative (the solver does not regroup non-linear products by itself). */
  lemma MulAssoc(x: int, y: int, z: int)
    ensures x * (y * z) == (x * y) * z
  {
  }
}
