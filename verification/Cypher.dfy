/** Authenticated encryption of byte strings between two key pairs. */
module Cypher {
  import opened Wrappers
  import opened ByteStrings
  import opened Crypto

  datatype CypherError =
    | EncryptionFailed(pk: Key)
    | DecryptionFailed(pk: Key)
    | UnexpectedNonceType(nonce: Nonce)
    | InvalidPubkey(key: Bytes)

  function EncryptBytes(s: Suite, data: Bytes, nonce: Nonce, pk: Key, sk: Key): Result<Bytes, CypherError> {
    match s.Seal(s.Shared(pk, sk), nonce, data)
    case Some(cipher) => Ok(cipher)
    case None => Err(EncryptionFailed(pk))
  }

  function DecryptBytes(s: Suite, data: Bytes, nonce: Nonce, pk: Key, sk: Key): Result<Bytes, CypherError> {
    match s.Open(s.Shared(pk, sk), nonce, data)
    case Some(plain) => Ok(plain)
    case None => Err(DecryptionFailed(pk))
  }

  /**
   * Bytes encrypted by `a` for the public key of `b` are read back by `b` with
   * the public key of `a`, and also by `a`, who derives the same shared key.
   */
  lemma BytesRoundTrip(s: Suite, data: Bytes, nonce: Nonce, a: Key, b: Key, cipher: Bytes)
    requires s.Lawful()
    requires EncryptBytes(s, data, nonce, s.Public(b), a) == Ok(cipher)
    ensures |cipher| == |data| + TAG_SIZE
    ensures DecryptBytes(s, cipher, nonce, s.Public(a), b) == Ok(data)
    ensures DecryptBytes(s, cipher, nonce, s.Public(b), a) == Ok(data)
  {
    assert s.Agrees(a, b);
    assert s.SealOpens(s.Shared(s.Public(b), a), nonce, data);
  }
}
