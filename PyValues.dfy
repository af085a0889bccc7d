/** Values shared by the proof-of-work model: bytes, the Python exceptions the
    core can raise, and the Option/Result wrappers used for error paths. */
module PyValues {

  type byte = bv8

  /** The exceptions the core raises: `hash_bytes[i]` out of range, and
      `bytes.fromhex` rejecting its argument. */
  datatype Error = IndexError | ValueError

  datatype Option<T> = None | Some(value: T)

  datatype Result<T> = Ok(value: T) | Err(error: Error)

  /** A SHA-256 digest: exactly 32 bytes. */
  type Digest = d: seq<byte> | |d| == 32 witness seq(32, _ => 0 as byte)

  /** A candidate suffix before hex encoding: exactly 64 bytes. */
  type Candidate = c: seq<byte> | |c| == 64 witness seq(64, _ => 0 as byte)
}
