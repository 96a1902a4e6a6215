/** Machine types and the error-carrying result used throughout the model. */
module Types {

  /** Rust's `u8`. */
  newtype u8 = x: int | 0 <= x < 256

  const U64_LIMIT: int := 0x1_0000_0000_0000_0000

  /** Rust's `u64`. */
  newtype u64 = x: int | 0 <= x < U64_LIMIT

  /** A `[u8; 32]`: a leaf payload or a node digest. */
  type Bytes32 = s: seq<u8> | |s| == 32 witness seq(32, _ => 0)

  /** A value or the message of the error that stopped the computation
      (the text a `JsError` is built from). */
  datatype Result<+T> = Ok(value: T) | Err(message: string)

  datatype Option<+T> = None | Some(value: T)
}
