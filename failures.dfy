/** Failures shared by the containers and the programs built on them. */
module Failures {

  /** The kinds of failure the code raises: each C++ exception class it throws, plus the
      two conditions its programs report on the console and exit on. */
  datatype Error =
    | Underflow        // std::underflow_error: no byte left in the input stream
    | OutOfRange       // std::out_of_range: empty container, bad index, missing root
    | InvalidArgument  // std::invalid_argument: duplicate or missing key, no floor/ceiling
    | NoMatch          // a lookup that the donations program reports as "No match"
    | InvalidCapacity  // a bad first-class capacity in the boarding program

  /** The result of an operation that either produces a value or fails. */
  datatype Result<T> = Ok(value: T) | Err(error: Error)

  /** A value that may be absent. */
  datatype Option<T> = None | Some(value: T)

  /** The result of an operation that produces nothing or fails. */
  datatype Outcome = Pass | Fail(error: Error)
}
