/** Option and Result: the model's stand-ins for JavaScript's `null`/`undefined`
    and for a thrown exception. */
module Wrappers {

  datatype Option<+T> = None | Some(value: T)

  datatype Result<+T, +E> = Ok(value: T) | Err(error: E)

  /** The outcome of an operation that returns nothing but may throw. */
  datatype Outcome<+E> = Pass | Fail(error: E)

  /** A handle to a key imported into WebCrypto (`CryptoKey`). Only its identity matters. */
  datatype CryptoKey = CryptoKey(handle: int)

  /** A failure of the HTTP transport (axios), surfaced unchanged. */
  datatype TransportError = TransportError(status: int)
}
