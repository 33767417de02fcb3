/** The cryptographic primitives, which this model does not implement:
    PBKDF2 key derivation (`derive_key`, 32-byte key, 1000 iterations) and
    AES in GCM mode (`encrypt_and_digest`, `decrypt_and_verify`). A suite
    is any choice of the three functions; what the real library is
    believed to guarantee is stated as predicates on a suite, which the
    lemmas that need them take as hypotheses. */
module Cipher {
  import opened Common

  const KeyLen: nat := 32
  const GcmTagLen: nat := 16

  datatype Suite = Suite(
    /** `derive_key(passphrase, salt)` */
    derive: (string, Bytes) -> Bytes,
    /** `AES.new(key, AES.MODE_GCM)` with the given nonce, then
        `encrypt_and_digest(plaintext)`: the ciphertext and the tag. */
    seal: (Bytes, Bytes, Bytes) -> (Bytes, Bytes),
    /** `AES.new(key, AES.MODE_GCM, nonce=nonce)` then
        `decrypt_and_verify(ciphertext, tag)`: `None` stands for the
        exception raised when the tag does not verify or the nonce is
        unusable. */
    open: (Bytes, Bytes, Bytes, Bytes) -> Option<Bytes>)

  /** The sizes GCM produces: a 32-byte key, a ciphertext as long as the
      plaintext and a 16-byte tag. */
  ghost predicate GcmShape(s: Suite)
  {
    && (forall pass, salt :: |s.derive(pass, salt)| == KeyLen)
    && (forall key, nonce, pt ::
          |s.seal(key, nonce, pt).0| == |pt| && |s.seal(key, nonce, pt).1| == GcmTagLen)
  }

  /** Opening what was sealed under the same key and nonce gives the
      plaintext back. */
  ghost predicate OpensSealed(s: Suite)
  {
    forall key, nonce, pt ::
      s.open(key, nonce, s.seal(key, nonce, pt).0, s.seal(key, nonce, pt).1) == Some(pt)
  }
}
