/** The cryptographic primitives libgcrypt provides to the encryption layer,
    kept uninterpreted: AES-128 on one 16-byte block and SHA-512. They are
    values passed to the operations that use them, so nothing about them is
    assumed beyond what a lemma states in its `requires`. */
module Primitives {
  import opened Bytes

  const HASH_LEN: nat := 64

  /** CBC_LEN = 16 bytes: one AES block, and the AES-128 key and IV. The
      cipher code writes the literal 16 for it. */
  type Block = s: seq<byte> | |s| == 16 witness Zeros(16)
  type Digest = s: seq<byte> | |s| == 64 witness Zeros(64)

  /** AES with a 16-byte key, as a block cipher: encrypt(key, block) and
      decrypt(key, block). */
  datatype Aes = Aes(encrypt: (Block, Block) -> Block, decrypt: (Block, Block) -> Block)
  {
    /** The one property of AES the round trip rests on. */
    ghost predicate Inverts() {
      forall k, b :: decrypt(k, encrypt(k, b)) == b
    }
  }

  /** What the library offers: GCRY_CIPHER_AES and GCRY_MD_SHA512. */
  datatype Library = Library(aes: Aes, sha512: seq<byte> -> Digest)

  /** The first 16 bytes of a digest, which is what gcry_cipher_setkey and
      gcry_cipher_setiv are given (CBC_LEN bytes of a HASH_LEN buffer). */
  function Head16(d: seq<byte>): Block
    requires |d| >= 16
  {
    d[..16]
  }
}
