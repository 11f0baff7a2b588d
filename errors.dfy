/** The error codes raised by the components and the two result shapes the
    models return instead of throwing. */
module Errors {

  /** Error codes passed to cov::error by the components:
      E000E – a tree handle that denotes no node,
      E000H – top/pop on an empty stack,
      E000I – push on a full stack. */
  datatype Error = E000E | E000H | E000I

  /** Outcome of an operation that returns nothing on success. */
  datatype Outcome = Pass | Fail(error: Error)

  /** Outcome of an operation that returns a value on success. */
  datatype Result<+R> = Ok(value: R) | Err(error: Error) {

    /** The value on success, `default` on failure. */
    function GetOr(default: R): R {
      match this
      case Ok(v) => v
      case Err(_) => default
    }

    /** Forgets the value. */
    function ToOutcome(): Outcome {
      match this
      case Ok(_) => Pass
      case Err(e) => Fail(e)
    }
  }
}
