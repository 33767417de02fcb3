/** Vocabulary shared by every part of the model: bytes, paths, and the
    error kinds that a per-file operation can end with. */
module Common {

  type Byte = bv8
  type Bytes = seq<Byte>

  /** A path is an opaque string; the file system below has no directories. */
  type Path = string

  /** Length of the random salt and of the default AES-GCM nonce. */
  const BlockLen: nat := 16

  /** Exactly sixteen bytes, as `get_random_bytes(16)` and the cipher's
      own nonce generator deliver them. */
  type Block16 = s: Bytes | |s| == BlockLen witness seq(16, _ => 0)

  datatype Option<+T> = None | Some(value: T)

  /** The exceptions the walk catches, grouped by cause: the file system
      refused (a missing file), or the cipher rejected the tag. */
  datatype Error = IOFailure | AuthenticationFailure

  datatype Result<+T> = Ok(value: T) | Err(error: Error)

  function Min(a: int, b: int): int
  {
    if a < b then a else b
  }
}
