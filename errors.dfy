/** The error descriptor attached to a failure (src/Yart.Yart/Error.cs). */
module Errors {

  /** A C# `string?`: either absent (null) or a string. */
  datatype Option<+T> = None | Some(value: T)

  /** A reference type: results hand back the very object they were given,
      so two errors with equal messages are still different errors. */
  class Error {
    /** Get-only: assigned once by the constructor and never changed. */
    const Message: Option<string>

    /** Construction accepts any message, or none at all (the default). */
    constructor (message: Option<string> := None)
      ensures Message == message
    {
      Message := message;
    }
  }

  /** Two errors built from the same message are distinct objects. */
  method NewErrorsAreDistinct(message: Option<string>) returns (first: Error, second: Error)
    ensures first.Message == message && second.Message == message
    ensures first != second
  {
    first := new Error(message);
    second := new Error(message);
  }

  /** `new Error()` carries no message. */
  method NewErrorWithoutMessage() returns (e: Error)
    ensures e.Message == None
  {
    e := new Error();
  }
}
