/** The libgcrypt handles the encryption layer drives. Every call that the
    source checks for an error may fail: its result `err` is chosen
    nondeterministically, and a failing call changes nothing. */
module Gcrypt {
  import opened Bytes
  import opened Primitives
  import Cbc

  datatype Mode = CBC | ECB

  /** A gcry_cipher_hd_t for AES: its mode, its key and, in CBC mode, the
      chaining value that each encrypt or decrypt call continues from. */
  class CipherHandle {
    const aes: Aes
    const mode: Mode
    var key: Block
    var iv: Block

    constructor (aes: Aes, mode: Mode)
      ensures this.aes == aes && this.mode == mode
    {
      this.aes := aes;
      this.mode := mode;
      key := Zeros(16);
      iv := Zeros(16);
    }

    /** gcry_cipher_setkey */
    method SetKey(k: Block) returns (err: bool)
      modifies this
      ensures iv == old(iv)
      ensures !err ==> key == k
      ensures err ==> key == old(key)
    {
      err := *;
      if !err {
        key := k;
      }
    }

    /** gcry_cipher_setiv */
    method SetIv(v: Block) returns (err: bool)
      modifies this
      ensures key == old(key)
      ensures !err ==> iv == v
      ensures err ==> iv == old(iv)
    {
      err := *;
      if !err {
        iv := v;
      }
    }

    /** gcry_cipher_encrypt(h, out + at, |input|, input, |input|) in CBC
        mode; an in-place call passes the bytes it overwrites as `input`. */
    method Encrypt(out: array<byte>, at: nat, input: seq<byte>) returns (err: bool)
      requires mode == CBC && |input| % 16 == 0 && at + |input| <= out.Length
      modifies this, out
      ensures key == old(key)
      ensures err ==> out[..] == old(out[..]) && iv == old(iv)
      ensures !err ==>
        var c := Cbc.Encrypt(aes, key, old(iv), input);
        out[..] == Splice(old(out[..]), at, c) && iv == Cbc.Chain(old(iv), c)
    {
      err := *;
      if !err {
        var c := Cbc.Encrypt(aes, key, iv, input);
        Memcpy(out, at, c);
        iv := Cbc.Chain(iv, c);
      }
    }

    /** gcry_cipher_decrypt(h, out + at, |input|, input, |input|) in CBC or
        ECB mode. */
    method Decrypt(out: array<byte>, at: nat, input: seq<byte>) returns (err: bool)
      requires |input| % 16 == 0 && at + |input| <= out.Length
      modifies this, out
      ensures key == old(key)
      ensures err ==> out[..] == old(out[..]) && iv == old(iv)
      ensures !err && mode == CBC ==>
        out[..] == Splice(old(out[..]), at, Cbc.Decrypt(aes, key, old(iv), input))
        && iv == Cbc.Chain(old(iv), input)
      ensures !err && mode == ECB ==>
        out[..] == Splice(old(out[..]), at, Cbc.EcbDecrypt(aes, key, input))
        && iv == old(iv)
    {
      err := *;
      if !err {
        if mode == CBC {
          var p := Cbc.Decrypt(aes, key, iv, input);
          Memcpy(out, at, p);
          iv := Cbc.Chain(iv, input);
        } else {
          var p := Cbc.EcbDecrypt(aes, key, input);
          Memcpy(out, at, p);
        }
      }
    }
  }

  /** gcry_cipher_open: may fail. */
  method CipherOpen(aes: Aes, mode: Mode) returns (h: CipherHandle, err: bool)
    ensures fresh(h) && h.aes == aes && h.mode == mode
  {
    h := new CipherHandle(aes, mode);
    err := *;
  }

  /** A gcry_md_hd_t for SHA-512: the bytes written to it since it was
      opened or last reset. */
  class MdHandle {
    const sha512: seq<byte> -> Digest
    var written: seq<byte>

    /** gcry_md_open; the source never checks its result. */
    constructor Open(sha512: seq<byte> -> Digest)
      ensures this.sha512 == sha512 && written == []
    {
      this.sha512 := sha512;
      written := [];
    }

    /** gcry_md_write */
    method Write(data: seq<byte>)
      modifies this
      ensures written == old(written) + data
    {
      written := written + data;
    }

    /** gcry_md_read: the digest of everything written. */
    method Read() returns (d: Digest)
      ensures d == sha512(written)
    {
      d := sha512(written);
    }

    /** gcry_md_reset */
    method Reset()
      modifies this
      ensures written == []
    {
      written := [];
    }
  }
}
