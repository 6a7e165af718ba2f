/** Block headers (decrypt_header): the four header fields packed into the
    25 bytes that follow a block's 16-byte salt, decrypted in place, and
    unpacked again. */
module Header {
  import opened Bytes
  import opened Primitives
  import opened Control
  import opened Crypt

  const HEADER_LEN: nat := 25

  /** The values decrypt_header reads and writes through its four pointers:
      the compression type and three 64-bit lengths. */
  datatype Fields = Fields(cType: byte, cLen: i64, uLen: i64, lastHead: i64)

  /** The caller's four variables, which decrypt_header overwrites. */
  class BlockHeader {
    var cType: byte
    var cLen: i64
    var uLen: i64
    var lastHead: i64

    function Value(): Fields
      reads this
    {
      Fields(cType, cLen, uLen, lastHead)
    }
  }

  /** The 25-byte layout: c_type at 0, c_len at 1, u_len at 9, last_head at
      17, each as it lies in memory. */
  function Pack(f: Fields): (b: seq<byte>)
    ensures |b| == HEADER_LEN
  {
    [f.cType] + I64Bytes(f.cLen) + I64Bytes(f.uLen) + I64Bytes(f.lastHead)
  }

  function Unpack(b: seq<byte>): Fields
    requires |b| == HEADER_LEN
  {
    Fields(b[0], I64Of(b[1..9]), I64Of(b[9..17]), I64Of(b[17..25]))
  }

  lemma PackFields(f: Fields)
    ensures var b := Pack(f);
      b[0] == f.cType && b[1..9] == I64Bytes(f.cLen)
      && b[9..17] == I64Bytes(f.uLen) && b[17..25] == I64Bytes(f.lastHead)
  {
    var b := Pack(f);
    assert b == [f.cType] + I64Bytes(f.cLen) + I64Bytes(f.uLen) + I64Bytes(f.lastHead);
    assert b[1..9] == I64Bytes(f.cLen);
    assert b[9..17] == I64Bytes(f.uLen);
  }

  /** Unpacking what was packed gives the fields back. */
  lemma UnpackPack(f: Fields)
    ensures Unpack(Pack(f)) == f
  {
    PackFields(f);
    I64OfBytes(f.cLen);
    I64OfBytes(f.uLen);
    I64OfBytes(f.lastHead);
  }

  /** Packing what was unpacked gives the bytes back. */
  lemma PackUnpack(b: seq<byte>)
    requires |b| == HEADER_LEN
    ensures Pack(Unpack(b)) == b
  {
    var f := Unpack(b);
    PackFields(f);
    I64BytesOf(b[1..9]);
    I64BytesOf(b[9..17]);
    I64BytesOf(b[17..25]);
    assert Pack(f) == b[..1] + b[1..9] + b[9..17] + b[17..25];
    assert b[..1] + b[1..9] + b[9..17] + b[17..25] == b;
  }

  /** What decrypt_header leaves in the caller's fields when it succeeds:
      the stored fields decrypted under the key and IV derived from the
      salt. */
  function DecryptedFields(lib: Library, hash: seq<byte>, pass: seq<byte>, salt: seq<byte>, stored: Fields, direction: Direction): Fields
  {
    Unpack(Crypt.Crypt(lib, hash, pass, salt, Pack(stored), direction))
  }

  /** Encrypting a header and decrypting it with the same salt gives the
      fields back: the 25-byte region always takes the stealing path. */
  lemma HeaderRoundTrip(lib: Library, hash: seq<byte>, pass: seq<byte>, salt: seq<byte>, f: Fields, direction: Direction)
    requires lib.aes.Inverts() && direction != Encrypt
    ensures DecryptedFields(lib, hash, pass, salt, Unpack(Crypt.Crypt(lib, hash, pass, salt, Pack(f), Encrypt)), direction) == f
  {
    var c := Crypt.Crypt(lib, hash, pass, salt, Pack(f), Encrypt);
    PackUnpack(c);
    CryptRoundTrip(lib, hash, pass, salt, Pack(f), direction);
    UnpackPack(f);
  }

  /** decrypt_header: `head` holds the salt in head[at .. at + 16) and the
      encrypted header region right after it; the caller's four variables
      hold the stored (encrypted) fields. lrz_decrypt is lrz_crypt with the
      caller's LRZ_DECRYPT or LRZ_VALIDATE. */
  method DecryptHeader(lib: Library, control: Control, head: array<byte>, at: nat, hdr: BlockHeader,
                       direction: Direction)
    returns (ok: bool)
    requires control.KeyMaterial() && direction != Encrypt
    requires at + SALT_LEN + HEADER_LEN <= head.Length
    modifies head, hdr
    ensures head[..at + SALT_LEN] == old(head[..at + SALT_LEN])
    ensures head[at + SALT_LEN + HEADER_LEN..] == old(head[at + SALT_LEN + HEADER_LEN..])
    ensures ok ==> hdr.Value() == DecryptedFields(lib, control.hash, control.saltPass,
                                                   old(head[at..at + SALT_LEN]), old(hdr.Value()), direction)
    ensures !ok ==> hdr.Value() == old(hdr.Value())
  {
    var buf := at + SALT_LEN;
    ghost var s0 := head[..];
    ghost var stored := hdr.Value();
    PackHeader(head, buf, hdr);
    ghost var s1 := head[..];
    SpliceParts(s0, buf, Pack(stored));
    var salt := head[at..at + SALT_LEN];
    SamePrefix(s1, s0, buf, at, buf);

    ghost var keyMem, ivMem;
    ok, keyMem, ivMem := LrzCrypt(lib, control, head, buf, HEADER_LEN, salt, direction);
    if !ok {
      return;
    }
    UnpackHeader(head, buf, hdr);
  }

  /** The four memcpy calls that copy the caller's fields into the region. */
  method PackHeader(head: array<byte>, buf: nat, hdr: BlockHeader)
    requires buf + HEADER_LEN <= head.Length
    modifies head
    ensures head[..] == Splice(old(head[..]), buf, Pack(hdr.Value()))
  {
    ghost var s0 := head[..];
    Memcpy(head, buf, [hdr.cType]);
    Memcpy(head, buf + 1, I64Bytes(hdr.cLen));
    Memcpy(head, buf + 9, I64Bytes(hdr.uLen));
    Memcpy(head, buf + 17, I64Bytes(hdr.lastHead));
    PackInPlace(s0, buf, hdr.Value());
  }

  /** The four memcpy calls that copy the region back into the caller's
      fields. */
  method UnpackHeader(head: array<byte>, buf: nat, hdr: BlockHeader)
    requires buf + HEADER_LEN <= head.Length
    modifies hdr
    ensures hdr.Value() == Unpack(head[buf..buf + HEADER_LEN])
  {
    var out := head[buf..buf + HEADER_LEN];
    hdr.cType := out[0];
    hdr.cLen := I64Of(out[1..9]);
    hdr.uLen := I64Of(out[9..17]);
    hdr.lastHead := I64Of(out[17..25]);
  }

  /** decrypt_header's four memcpy calls lay the packed fields out in one
      piece. */
  lemma PackInPlace(s: seq<byte>, at: nat, f: Fields)
    requires at + HEADER_LEN <= |s|
    ensures var s1 := Splice(s, at, [f.cType]);
      var s2 := Splice(s1, at + 1, I64Bytes(f.cLen));
      var s3 := Splice(s2, at + 9, I64Bytes(f.uLen));
      Splice(s3, at + 17, I64Bytes(f.lastHead)) == Splice(s, at, Pack(f))
  {
    var a, b, c, d := [f.cType], I64Bytes(f.cLen), I64Bytes(f.uLen), I64Bytes(f.lastHead);
    var rest := s[at + HEADER_LEN..];
    var s1 := Splice(s, at, a);
    assert s1 == s[..at] + a + s[at + 1..];
    var s2 := Splice(s1, at + 1, b);
    assert s2 == s[..at] + a + b + s[at + 9..];
    var s3 := Splice(s2, at + 9, c);
    assert s3 == s[..at] + a + b + c + s[at + 17..];
    var s4 := Splice(s3, at + 17, d);
    assert s4 == s[..at] + a + b + c + d + rest;
    assert Pack(f) == a + b + c + d;
  }
}
