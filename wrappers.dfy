/** Failure-carrying result types used where the game's constructors and
    validating methods throw `std::invalid_argument`. */
module Wrappers {

  datatype Option<+T> = None | Some(value: T)

  /** A value, or the kind of error that stopped it from being built. */
  datatype Result<+R, +E> = Success(value: R) | Failure(error: E)

  /** Success or failure of an operation that produces no value. */
  datatype Outcome<+E> = Pass | Fail(error: E)
}
