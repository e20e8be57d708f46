/** Optional values, fallible results, and the error kinds of the library. */
module Wrappers {
  datatype Option<+T> = None | Some(value: T)

  datatype Result<+T> = Ok(value: T) | Err(error: Error)

  /** The error variants of `error.rs` that the modelled code can return, without their texts. */
  datatype Error = Io | Serde | Crypto | Base64 | Key | Config
}
