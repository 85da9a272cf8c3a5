/** Error kinds raised by the simulator, and the Result/Outcome wrappers that
    replace Java's exceptions. Message texts are not modelled. */
module Errors {

  /** The exception classes of the simulator, plus the two java.lang
      exceptions its model classes throw. */
  datatype ErrorKind =
    | InvalidInput          // exception.InvalidInputException
    | InvalidConfiguration  // exception.InvalidConfigurationException
    | IllegalArgument       // java.lang.IllegalArgumentException
    | ArithmeticFailure     // java.lang.ArithmeticException (integer division by zero)

  /** A value, or the exception that was thrown instead of returning it. */
  datatype Result<T> = Ok(value: T) | Err(error: ErrorKind)

  /** Completion of a `void` operation that may throw. */
  datatype Outcome = Pass | Fail(error: ErrorKind)

  /** A possibly-null reference argument: None stands for Java's `null`. */
  datatype Option<T> = None | Some(value: T)
}
