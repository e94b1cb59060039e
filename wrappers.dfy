/** Option and Result, and the error kinds the modelled code can raise. */
module Wrappers {

  datatype Option<+T> = None | Some(value: T) {
    function GetOr(default: T): T {
      match this
      case Some(v) => v
      case None => default
    }
  }

  datatype Result<+R, +E> = Success(value: R) | Failure(error: E)

  /** The exceptions the modelled TypeScript code throws. */
  datatype Error =
    | TypeError            // a property read on `null` (e.g. `null.data`), `undefined.forEach`,
                           // a call of a non-function, bytes `to_string` cannot decode as UTF-8
    | SyntaxError          // JSON.parse of text that is not JSON
    | AuthenticationFailed // crypto_secretbox_open_easy: wrong key, nonce or tampered ciphertext
    | InvalidCiphertext    // a truthy field value that is not a byte buffer handed to open
    | InvalidBase64        // from_base64 of a string that is not base64
    | InvalidKeyId         // a key id that parseInt cannot turn into a non-negative integer

  /** Result<T, Error> as used throughout the model. */
  type Outcome<T> = Result<T, Error>
}
