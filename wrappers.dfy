/** Option and Result, the failure-carrying values used throughout the model. */
module Wrappers {

  datatype Option<+T> = None | Some(value: T)

  /** The outcome of an operation that the source aborts with an exception. */
  datatype Result<+T, +E> = Ok(value: T) | Fail(error: E) {
    predicate IsFailure() {
      Fail?
    }

    function PropagateFailure<U>(): Result<U, E>
      requires Fail?
    {
      Fail(error)
    }

    function Extract(): T
      requires Ok?
    {
      value
    }
  }

  /** The assertion or lookup of the source that stopped an operation. */
  datatype Fault =
    | IndexOutOfRange          // an index or key outside its sequence or table
    | ReferentialIntegrity     // a sanity check found a reference to a node outside the container
    | InvalidBounds            // a lower bound above an upper bound
    | UnsupportedTopology      // a network shape the operation does not handle
    | UnknownOverrideKind      // a neuron override that is not active, inactive or nofunc
    | DegenerateEquation       // a division by a zero coefficient
    | ValidationFailure        // an assignment that breaks a bound, an equation or a ReLU
    | UnsupportedConstraint    // a constraint kind the operation does not handle
    | Malformed                // text that does not have the expected layout
    | BadArgument              // an argument outside the range the operation asserts

  /** How an operation that returns nothing of its own ends. */
  datatype Outcome<+E> = Pass | Failed(error: E)
}
