/** The exceptions the timestamp core raises, and a result type that carries them. */
module Errors {

  /** The Python exception classes the core can raise, with the message or key they carry. */
  datatype Error =
    | ValueError(message: string)
    | AssertionError(message: string)
    | KeyError(key: string)
    | NotImplementedError(message: string)
      /** datetime refuses a date whose year lies outside 1..9999 */
    | YearOutOfRange(year: int)

  datatype Result<+T> = Ok(value: T) | Err(error: Error)

  datatype Option<+T> = None | Some(value: T)
}
