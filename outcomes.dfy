/** Error values for the exceptions the big-integer and CSV code throws. */
module Outcomes {

  datatype Error =
    /** An empty string was given as a big-integer literal. */
    | EmptyNumber
    /** A character that is neither a digit nor a leading sign. */
    | IllegalCharacter(c: char)
    /** A sign setter was given something other than '+' or '-'. */
    | IllegalSign(c: char)
    /** A CSV parser was asked to use one character as delimiter and grouper. */
    | SameDelimiterAndGrouper(c: char)
    /** A CSV line ended inside a group. */
    | UnclosedGroup(line: string)

  /** The value of an operation that may throw. */
  datatype Result<+T> = Ok(value: T) | Err(error: Error)

  /** The outcome of a mutator that may throw and returns nothing. */
  datatype Outcome = Pass | Fail(error: Error)
}
