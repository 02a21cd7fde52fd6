/** The library's error kinds, without their message texts, and the ways an operation ends. */
module Errors {
  datatype MinarrowError =
    | IndexError
    | ShapeError
    | TypeError
    | Overflow

  /** A result, a returned error, or a panic. */
  datatype Outcome<+T> = Done(value: T) | Failed(error: MinarrowError) | Panicked
}
