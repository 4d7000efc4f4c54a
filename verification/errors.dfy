/**
 * The fatal conditions of a genetic-algorithm run, and the result type that
 * carries either a value or one of them.
 */
module Errors {

  /** Why a run aborts. */
  datatype Error =
    | UnknownOperator      // the repair selector is neither "simple" nor "fancy"
    | InvariantViolation   // a sanity check found a chromosome over capacity
    | RetriesExhausted     // every offered attempt bred a duplicate of a population row

  datatype Result<+T> = Ok(value: T) | Err(error: Error)
}
