/** The exceptions raised by the digit operations and the solver. */
module Errors {

  /** The exceptions the source raises. All but the last two are `ValueError`s,
      which the solver catches. */
  datatype Error =
    | UselessOperation   // apply produced its own input
    | InvalidDivision    // a division with a non-zero remainder
    | TooLarge           // mirror of a number above 999
    | IllegalShift       // shift_left of a one-digit number
    | SameValueStore     // storing the value the memory already holds
    | ParseFailure       // int() of a text that is not a number
    | ZeroDivision       // ZeroDivisionError, not a ValueError
    | NotImplemented     // NotImplementedError, not a ValueError

  predicate IsValueError(e: Error) {
    !(e.ZeroDivision? || e.NotImplemented?)
  }
}
