/**
 * The one error kind of the library: a free-text message and an integer code
 * that tells the failure sites apart. A value of the datatype is immutable, so
 * both fields keep the values they were built with.
 */
module Errors {

  /** `code` defaults to 0, as the `errno` argument of the source does. */
  datatype LocalizationError = LocalizationError(message: string, code: int := 0)
  {
    /** The `errno` property: another name for `code`. */
    function Errno(): int
    {
      code
    }
  }

  /** Building an error keeps the supplied message and code, and `Errno` reports the code. */
  lemma ErrorFields(message: string, errno: int)
    ensures LocalizationError(message, errno).message == message
    ensures LocalizationError(message, errno).code == errno
    ensures LocalizationError(message, errno).Errno() == errno
  {
  }

  /** Without an `errno` argument the code is 0. */
  lemma DefaultCode(message: string)
    ensures LocalizationError(message).code == 0
    ensures LocalizationError(message).Errno() == 0
    ensures LocalizationError(message) == LocalizationError(message, 0)
  {
  }

  /** `Errno` and `code` agree on every error value. */
  lemma ErrnoIsCode(e: LocalizationError)
    ensures e.Errno() == e.code
  {
  }
}
