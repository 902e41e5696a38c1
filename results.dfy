/**
 * The failures that the modelled operations report by throwing in the
 * original library, turned into values.
 */
module Results {

  /** The exceptions thrown by the modelled operations. */
  datatype Error =
    /** `ArgumentOutOfRangeException(nameof(paramName), ...)`. */
    | ArgumentOutOfRange(paramName: string)
    /** `OverflowException` raised by a `checked` 32-bit addition. */
    | Overflow

  /** Either the value an operation returns or the exception it throws. */
  datatype Result<T> = Ok(value: T) | Err(error: Error)

  /** A `bool`-returning `Try...` method's outcome: `Some` carries its `out` value. */
  datatype Option<T> = None | Some(value: T)
}
