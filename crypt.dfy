/** The block encryption of lrzip's encryption layer: per-block key and IV
    derivation (lrz_keygen) and the in-place AES-CBC transform with its
    ciphertext-stealing tail (lrz_crypt). */
module Crypt {
  import opened Bytes
  import opened Primitives
  import Cbc
  import opened Gcrypt
  import opened Control

  const INT_MAX: int := 0x7FFF_FFFF

  /** LRZ_ENCRYPT, LRZ_DECRYPT and LRZ_VALIDATE; anything but the first
      decrypts. */
  datatype Direction = Encrypt | Decrypt | Validate

  // ---------------------------------------------------------------------
  // Key derivation

  /** The 64-byte key lrz_keygen derives: SHA-512 of hash ‖ salt ‖ pass. */
  function DerivedKey(sha512: seq<byte> -> Digest, hash: seq<byte>, salt: seq<byte>, pass: seq<byte>): Digest
  {
    sha512(hash + salt + pass)
  }

  /** The 64-byte IV lrz_keygen derives: SHA-512 of key ‖ salt ‖ pass. */
  function DerivedIv(sha512: seq<byte> -> Digest, hash: seq<byte>, salt: seq<byte>, pass: seq<byte>): Digest
  {
    sha512(DerivedKey(sha512, hash, salt, pass) + salt + pass)
  }

  /** Two different inputs with the same digest. */
  predicate Collision(sha512: seq<byte> -> Digest, a: seq<byte>, b: seq<byte>)
  {
    a != b && sha512(a) == sha512(b)
  }

  /** Two blocks with different salts, under the same hash and passphrase,
      hash different inputs in both rounds, so they can only share a key,
      or an IV, through a SHA-512 collision. */
  lemma DerivedKeysDiffer(sha512: seq<byte> -> Digest, hash: seq<byte>, pass: seq<byte>, salt1: seq<byte>, salt2: seq<byte>)
    requires |hash| == HASH_LEN && |salt1| == SALT_LEN && |salt2| == SALT_LEN && salt1 != salt2
    ensures DerivedKey(sha512, hash, salt1, pass) == DerivedKey(sha512, hash, salt2, pass) ==>
      Collision(sha512, hash + salt1 + pass, hash + salt2 + pass)
    ensures DerivedIv(sha512, hash, salt1, pass) == DerivedIv(sha512, hash, salt2, pass) ==>
      Collision(sha512, DerivedKey(sha512, hash, salt1, pass) + salt1 + pass,
                        DerivedKey(sha512, hash, salt2, pass) + salt2 + pass)
  {
    var k1, k2 := DerivedKey(sha512, hash, salt1, pass), DerivedKey(sha512, hash, salt2, pass);
    assert (hash + salt1 + pass)[HASH_LEN..HASH_LEN + SALT_LEN] == salt1;
    assert (hash + salt2 + pass)[HASH_LEN..HASH_LEN + SALT_LEN] == salt2;
    assert (k1 + salt1 + pass)[HASH_LEN..HASH_LEN + SALT_LEN] == salt1;
    assert (k2 + salt2 + pass)[HASH_LEN..HASH_LEN + SALT_LEN] == salt2;
  }

  /** lrz_keygen: fills `key` and `iv` from the control's global hash and
      passphrase and the block's salt, through a scratch buffer that it
      zeroes before returning (`scratch` is that buffer). */
  method LrzKeygen(lib: Library, control: Control, salt: seq<byte>, key: array<byte>, iv: array<byte>)
    returns (ghost scratch: array<byte>)
    requires control.KeyMaterial() && |salt| == SALT_LEN
    requires key.Length == HASH_LEN && iv.Length == HASH_LEN && key != iv
    modifies key, iv
    ensures key[..] == DerivedKey(lib.sha512, control.hash, salt, control.saltPass)
    ensures iv[..] == DerivedIv(lib.sha512, control.hash, salt, control.saltPass)
    ensures fresh(scratch) && scratch.Length == HASH_LEN + SALT_LEN + PASS_LEN
    ensures scratch[..] == Zeros(scratch.Length)
  {
    var buf := new byte[HASH_LEN + SALT_LEN + PASS_LEN];
    var md := new MdHandle.Open(lib.sha512);
    HashRound(md, buf, control.hash, salt, control.saltPass, key);
    md.Reset();
    HashRound(md, buf, key[..], salt, control.saltPass, iv);
    Memzero(buf);
    scratch := buf;
  }

  /** One of lrz_keygen's two rounds: buf := first ‖ salt ‖ pass, hash the
      first HASH_LEN + SALT_LEN + |pass| bytes of it on a reset handle and
      copy the digest to `out`. */
  method HashRound(md: MdHandle, buf: array<byte>, first: seq<byte>, salt: seq<byte>, pass: seq<byte>, out: array<byte>)
    requires |first| == HASH_LEN && |salt| == SALT_LEN && |pass| <= PASS_LEN
    requires buf.Length == HASH_LEN + SALT_LEN + PASS_LEN && out.Length == HASH_LEN && buf != out
    requires md.written == []
    modifies buf, out, md
    ensures out[..] == md.sha512(first + salt + pass)
  {
    var n := HASH_LEN + SALT_LEN + |pass|;
    ghost var s0 := buf[..];
    Memcpy(buf, 0, first);
    Memcpy(buf, HASH_LEN, salt);
    Memcpy(buf, HASH_LEN + SALT_LEN, pass);
    SpliceThree(s0, first, salt, pass);
    var input := buf[..n];
    assert [] + input == first + salt + pass;
    md.Write(input);
    var d := md.Read();
    SpliceAll(out[..], d);
    Memcpy(out, 0, d);
  }

  // ---------------------------------------------------------------------
  // The transform

  /** A partial block zero-padded to a full one (memset then memcpy). */
  function Pad(s: seq<byte>): (b: Block)
    requires |s| <= 16
  {
    s + Zeros(16 - |s|)
  }

  /** What lrz_crypt writes when encrypting: the length M of the tail is
      |p| mod 16. The first N = |p| - M bytes are CBC-encrypted; when M is
      not zero, the zero-padded tail is encrypted as one more CBC block T,
      and the output is C_1 .. C_(k-1), T, C_k[0..M). */
  function LrzEncrypt(aes: Aes, k: Block, iv: Block, p: seq<byte>): (c: seq<byte>)
    requires |p| % 16 == 0 || |p| >= 16
    ensures |c| == |p|
  {
    var m := |p| % 16;
    var n := |p| - m;
    var body := Cbc.Encrypt(aes, k, iv, p[..n]);
    if m == 0 then body
    else
      var t := Cbc.Encrypt(aes, k, Cbc.Chain(iv, body), Pad(p[n..]));
      body[..n - 16] + t + body[n - 16..n - 16 + m]
  }

  /** What lrz_crypt writes when decrypting: plain CBC when M is zero;
      otherwise CBC over the first N - 16 bytes, an ECB decryption of the
      stored block T xored with the zero-padded stored fragment, whose first
      M bytes are the plaintext tail and whose remaining bytes complete C_k,
      and a last CBC block that decrypts C_k. */
  function LrzDecrypt(aes: Aes, k: Block, iv: Block, c: seq<byte>): (p: seq<byte>)
    requires |c| % 16 == 0 || |c| >= 16
    ensures |p| == |c|
  {
    var m := |c| % 16;
    var n := |c| - m;
    if m == 0 then Cbc.Decrypt(aes, k, iv, c)
    else
      var head := Cbc.Decrypt(aes, k, iv, c[..n - 16]);
      var x := Xor(Cbc.EcbDecrypt(aes, k, c[n - 16..n]), Pad(c[n..]));
      var last := Cbc.Decrypt(aes, k, Cbc.Chain(iv, c[..n - 16]), c[n..] + x[m..]);
      head + last + x[..m]
  }

  function Transform(aes: Aes, k: Block, iv: Block, s: seq<byte>, direction: Direction): (r: seq<byte>)
    requires |s| % 16 == 0 || |s| >= 16
    ensures |r| == |s|
  {
    if direction == Encrypt then LrzEncrypt(aes, k, iv, s) else LrzDecrypt(aes, k, iv, s)
  }

  /** The transform lrz_crypt applies to a buffer under a block's salt: the
      cipher is keyed with the first 16 bytes of the derived key and IV. */
  function Crypt(lib: Library, hash: seq<byte>, pass: seq<byte>, salt: seq<byte>, s: seq<byte>, direction: Direction): (r: seq<byte>)
    requires |s| % 16 == 0 || |s| >= 16
    ensures |r| == |s|
  {
    Transform(lib.aes, Head16(DerivedKey(lib.sha512, hash, salt, pass)),
              Head16(DerivedIv(lib.sha512, hash, salt, pass)), s, direction)
  }

  /** xor128: a ^= b on two 16-byte blocks (as two 64-bit words). */
  method Xor128(a: array<byte>, b: array<byte>)
    requires a.Length == 16 && b.Length == 16
    modifies a
    ensures a[..] == Xor(old(a[..]), old(b[..]))
  {
    forall i | 0 <= i < 16 {
      a[i] := XorByte(a[i], b[i]);
    }
  }

  // Where lrz_crypt's memcpy calls put each piece of the buffer.

  lemma EncryptLayout(s0: seq<byte>, at: nat, m: nat, n: nat, body: seq<byte>, t: seq<byte>)
    requires 0 < m < 16 <= n && at + n + m <= |s0|
    requires |body| == n && |t| == 16
    ensures var s1 := Splice(s0, at, body);
      var s2 := Splice(s1, at + n, body[n - 16..n - 16 + m]);
      Splice(s2, at + n - 16, t) == Splice(s0, at, body[..n - 16] + t + body[n - 16..n - 16 + m])
  {
    var f := body[n - 16..n - 16 + m];
    var s1 := Splice(s0, at, body);
    assert s1 == s0[..at] + body + s0[at + n..];
    var s2 := Splice(s1, at + n, f);
    assert s2 == s0[..at] + body + f + s0[at + n + m..];
    var s3 := Splice(s2, at + n - 16, t);
    assert s3 == s0[..at] + (body[..n - 16] + t + f) + s0[at + n + m..];
  }

  lemma DecryptLayout(s0: seq<byte>, at: nat, m: nat, n: nat, head: seq<byte>, x: seq<byte>, last: seq<byte>)
    requires 0 < m < 16 <= n && at + n + m <= |s0|
    requires |head| == n - 16 && |x| == 16 && |last| == 16
    ensures var s1 := Splice(s0, at, head);
      var s2 := Splice(s1, at + n, x[..m]);
      Splice(s2, at + n - 16, last) == Splice(s0, at, head + last + x[..m])
  {
    var s1 := Splice(s0, at, head);
    assert s1 == s0[..at] + head + s0[at + n - 16..];
    var s2 := Splice(s1, at + n, x[..m]);
    assert s2 == s0[..at] + head + s0[at + n - 16..at + n] + x[..m] + s0[at + n + m..];
    var s3 := Splice(s2, at + n - 16, last);
    assert s3 == s0[..at] + (head + last + x[..m]) + s0[at + n + m..];
  }

  /** On whole blocks, lrz_crypt is plain CBC both ways. */
  lemma WholeBlocks(aes: Aes, k: Block, iv: Block, p: seq<byte>)
    requires |p| % 16 == 0
    ensures LrzEncrypt(aes, k, iv, p) == Cbc.Encrypt(aes, k, iv, p)
    ensures LrzDecrypt(aes, k, iv, p) == Cbc.Decrypt(aes, k, iv, p)
  {
    assert p[..|p|] == p;
  }

  lemma EncryptTail(aes: Aes, k: Block, iv: Block, p: seq<byte>, m: nat, n: nat)
    requires 0 < m < 16 <= n && n % 16 == 0 && |p| == n + m
    ensures var body := Cbc.Encrypt(aes, k, iv, p[..n]);
      LrzEncrypt(aes, k, iv, p)
      == body[..n - 16] + Cbc.Encrypt(aes, k, Cbc.Chain(iv, body), Pad(p[n..])) + body[n - 16..n - 16 + m]
  {
    assert |p| % 16 == m;
  }

  lemma DecryptTail(aes: Aes, k: Block, iv: Block, c: seq<byte>, m: nat, n: nat)
    requires 0 < m < 16 <= n && n % 16 == 0 && |c| == n + m
    ensures var x := Xor(Cbc.EcbDecrypt(aes, k, c[n - 16..n]), Pad(c[n..]));
      LrzDecrypt(aes, k, iv, c)
      == Cbc.Decrypt(aes, k, iv, c[..n - 16])
         + Cbc.Decrypt(aes, k, Cbc.Chain(iv, c[..n - 16]), c[n..] + x[m..]) + x[..m]
  {
    assert |c| % 16 == m;
  }

  /** DecryptTail on a ciphertext given as its three pieces: the leading
      whole blocks, the stored block T and the fragment. */
  lemma DecryptPieces(aes: Aes, k: Block, iv: Block, b: seq<byte>, t: Block, f: seq<byte>)
    requires |b| % 16 == 0 && 0 < |f| < 16
    ensures var x := Xor(Cbc.EcbDecrypt(aes, k, t), Pad(f));
      LrzDecrypt(aes, k, iv, b + t + f)
      == Cbc.Decrypt(aes, k, iv, b) + Cbc.Decrypt(aes, k, Cbc.Chain(iv, b), f + x[|f|..]) + x[..|f|]
  {
    var m, n := |f|, |b| + 16;
    var c := b + t + f;
    Concat3(b, t, f);
    MulIsMultiple(|b| / 16 + 1, 16);
    assert n % 16 == 0;
    DecryptTail(aes, k, iv, c, m, n);
  }

  /** The tail arithmetic of the decrypting branch: xoring (Pad(P*) ^ C_k),
      which is what the ECB decryption of T yields, with the zero-padded
      stolen fragment C_k[0..M) gives back P* in the first M bytes and the
      missing bytes of C_k in the others. */
  lemma {:induction false} StolenXor(tail: seq<byte>, ck: Block)
    requires 0 < |tail| < 16
    ensures var m := |tail|;
      var x := Xor(Xor(Pad(tail), ck), Pad(ck[..m]));
      x[..m] == tail && x[m..] == ck[m..]
  {
    var m := |tail|;
    var x := Xor(Xor(Pad(tail), ck), Pad(ck[..m]));
    forall i | 0 <= i < m
      ensures x[i] == tail[i]
    {
      assert Pad(tail)[i] == tail[i] && Pad(ck[..m])[i] == ck[i];
      XorByteLaws(tail[i], ck[i]);
    }
    forall i | m <= i < 16
      ensures x[i] == ck[i]
    {
      assert Pad(tail)[i] == 0 && Pad(ck[..m])[i] == 0;
      XorByteLaws(ck[i], 0);
    }
  }

  /** Decryption undoes encryption, for every length lrz_crypt accepts. */
  lemma LrzRoundTrip(aes: Aes, k: Block, iv: Block, p: seq<byte>)
    requires aes.Inverts() && (|p| % 16 == 0 || |p| >= 16)
    ensures LrzDecrypt(aes, k, iv, LrzEncrypt(aes, k, iv, p)) == p
  {
    BlockSplit(|p|);
    var m := |p| % 16;
    var n := |p| - m;
    if m == 0 {
      assert p[..n] == p;
      Cbc.RoundTrip(aes, k, iv, p);
    } else {
      StolenRoundTrip(aes, k, iv, p, m, n);
    }
  }

  /** LrzRoundTrip when the input ends in a partial block of M bytes after
      N bytes of whole blocks. */
  lemma StolenRoundTrip(aes: Aes, k: Block, iv: Block, p: seq<byte>, m: nat, n: nat)
    requires aes.Inverts() && 0 < m < 16 <= n && n % 16 == 0 && |p| == n + m
    ensures LrzDecrypt(aes, k, iv, LrzEncrypt(aes, k, iv, p)) == p
  {
    assert p[..n] + p[n..] == p;
    var body := Cbc.Encrypt(aes, k, iv, p[..n]);
    var b, ck: Block := body[..n - 16], body[n - 16..];
    EncryptSplit(aes, k, iv, p, m, n);
    UnstealAfter(aes, k, iv, b, ck, p[n..], m);
    BodyRoundTrip(aes, k, iv, p, n);
  }

  /** The whole blocks, encrypted, split before their last block and
      joined again, decrypt to the whole blocks of the plaintext. */
  lemma BodyRoundTrip(aes: Aes, k: Block, iv: Block, p: seq<byte>, n: nat)
    requires aes.Inverts() && 16 <= n <= |p| && n % 16 == 0
    ensures var body := Cbc.Encrypt(aes, k, iv, p[..n]);
      Cbc.Decrypt(aes, k, iv, body[..n - 16] + body[n - 16..]) == p[..n]
  {
    var body := Cbc.Encrypt(aes, k, iv, p[..n]);
    assert body[..n - 16] + body[n - 16..] == body;
    Cbc.RoundTrip(aes, k, iv, p[..n]);
  }

  /** EncryptTail with the CBC output split into the blocks B before the
      last whole block C_k, and C_k. */
  lemma EncryptSplit(aes: Aes, k: Block, iv: Block, p: seq<byte>, m: nat, n: nat)
    requires 0 < m < 16 <= n && n % 16 == 0 && |p| == n + m
    ensures var body := Cbc.Encrypt(aes, k, iv, p[..n]);
      var ck: Block := body[n - 16..];
      LrzEncrypt(aes, k, iv, p) == body[..n - 16] + Cbc.Encrypt(aes, k, ck, Pad(p[n..])) + ck[..m]
  {
    var body := Cbc.Encrypt(aes, k, iv, p[..n]);
    var ck: Block := body[n - 16..];
    assert Cbc.Chain(iv, body) == ck;
    assert body[n - 16..n - 16 + m] == ck[..m];
    EncryptTail(aes, k, iv, p, m, n);
  }

  /** The decrypting branch on a stolen layout B, T, C_k[0..M) (B the
      ciphertext before the last whole block C_k, T the encrypted padded
      tail) decrypts B ‖ C_k by CBC and recovers the tail. */
  lemma UnstealAfter(aes: Aes, k: Block, iv: Block, b: seq<byte>, ck: Block, tail: seq<byte>, m: nat)
    requires aes.Inverts() && |b| % 16 == 0 && (|b| + 16) % 16 == 0 && 0 < |tail| == m < 16
    ensures var t := Cbc.Encrypt(aes, k, ck, Pad(tail));
      LrzDecrypt(aes, k, iv, b + t + ck[..m]) == Cbc.Decrypt(aes, k, iv, b + ck) + tail
  {
    var t: Block := Cbc.Encrypt(aes, k, ck, Pad(tail));
    UnstealBlock(aes, k, ck, tail);
    DecryptPieces(aes, k, iv, b, t, ck[..m]);
    Cbc.DecryptAppend(aes, k, iv, b, ck);
  }

  /** The stolen block on its own: T = CBC-encryption of the padded tail
      after C_k; decrypting T by ECB and xoring with the padded fragment
      C_k[0..M) gives back the tail and the rest of C_k. */
  lemma UnstealBlock(aes: Aes, k: Block, ck: Block, tail: seq<byte>)
    requires aes.Inverts() && 0 < |tail| < 16
    ensures var m := |tail|;
      var t := Cbc.Encrypt(aes, k, ck, Pad(tail));
      var x := Xor(Cbc.EcbDecrypt(aes, k, t), Pad(ck[..m]));
      |t| == 16 && x[..m] == tail && ck[..m] + x[m..] == ck
  {
    var m := |tail|;
    var pad := Pad(tail);
    Cbc.OneBlock(aes, k, ck, pad);
    var t: Block := Cbc.Encrypt(aes, k, ck, pad);
    Cbc.OneBlock(aes, k, ck, t);
    assert Cbc.EcbDecrypt(aes, k, t) == Xor(pad, ck);
    StolenXor(tail, ck);
    var x := Xor(Xor(pad, ck), Pad(ck[..m]));
    assert ck[..m] + x[m..] == ck;
  }

  /** lrz_crypt's framing is CBC with ciphertext stealing in the CS2 variant:
      the same bytes as the reference definition, for every input of at
      least one block. */
  lemma LrzEncryptIsCs2(aes: Aes, k: Block, iv: Block, p: seq<byte>)
    requires |p| >= 16
    ensures LrzEncrypt(aes, k, iv, p) == Cbc.Cs2Encrypt(aes, k, iv, p)
  {
    BlockSplit(|p|);
    var m := |p| % 16;
    var n := |p| - m;
    if m == 0 {
      assert p[..n] == p;
    } else {
      Cs2Tail(aes, k, iv, p, m, n);
      EncryptTail(aes, k, iv, p, m, n);
    }
  }

  /** The reference definition when the input ends in a fragment of M
      bytes: the whole blocks but the last, the encrypted padded fragment,
      then the first M bytes of the last whole ciphertext block. */
  lemma Cs2Tail(aes: Aes, k: Block, iv: Block, p: seq<byte>, m: nat, n: nat)
    requires 0 < m < 16 <= n && n % 16 == 0 && |p| == n + m
    ensures var body := Cbc.Encrypt(aes, k, iv, p[..n]);
      Cbc.Cs2Encrypt(aes, k, iv, p)
      == body[..n - 16] + Cbc.Encrypt(aes, k, Cbc.Chain(iv, body), Pad(p[n..])) + body[n - 16..n - 16 + m]
  {
    var pad := Pad(p[n..]);
    Cs2Unfold(aes, k, iv, p, m, n);
    var body := Cbc.Encrypt(aes, k, iv, p[..n]);
    var t := Cbc.Encrypt(aes, k, Cbc.Chain(iv, body), pad);
    Cbc.EncryptAppend(aes, k, iv, p[..n], pad);
    ConcatSlices(body, t, n - 16, n - 16 + m);
  }

  /** The reference definition's padded input, as the whole blocks followed
      by the zero-padded fragment. */
  lemma Cs2Unfold(aes: Aes, k: Block, iv: Block, p: seq<byte>, m: nat, n: nat)
    requires 0 < m < 16 <= n && n % 16 == 0 && |p| == n + m
    ensures var full := Cbc.Encrypt(aes, k, iv, p[..n] + Pad(p[n..]));
      Cbc.Cs2Encrypt(aes, k, iv, p) == full[..n - 16] + full[n..] + full[n - 16..n - 16 + m]
  {
    PadSplit(p, m, n);
    assert |p| % 16 == m;
  }

  lemma PadSplit(p: seq<byte>, m: nat, n: nat)
    requires 0 < m < 16 && |p| == n + m
    ensures p + Zeros(16 - m) == p[..n] + Pad(p[n..])
  {
    assert p == p[..n] + p[n..];
  }

  /** Decrypting (or validating) what was encrypted under the same salt,
      hash and passphrase gives back the plaintext. */
  lemma CryptRoundTrip(lib: Library, hash: seq<byte>, pass: seq<byte>, salt: seq<byte>, p: seq<byte>, direction: Direction)
    requires lib.aes.Inverts() && direction != Encrypt && (|p| % 16 == 0 || |p| >= 16)
    ensures Crypt(lib, hash, pass, salt, Crypt(lib, hash, pass, salt, p, Encrypt), direction) == p
  {
    LrzRoundTrip(lib.aes, Head16(DerivedKey(lib.sha512, hash, salt, pass)), Head16(DerivedIv(lib.sha512, hash, salt, pass)), p);
  }

  /** The whole blocks of a length and its tail: N = len - M is a multiple
      of 16, and at least one block when len is. */
  lemma BlockSplit(len: nat)
    ensures 0 <= len % 16 < 16 && (len - len % 16) % 16 == 0
    ensures len >= 16 ==> len - len % 16 >= 16
    ensures len % 16 == 0 && len >= 16 ==> (len - 16) % 16 == 0
  {
    var q := len / 16;
    assert len - len % 16 == q * 16;
    MulIsMultiple(q, 16);
    if len >= 16 {
      assert q >= 1;
    }
  }

  lemma PadIsSplice(t: seq<byte>)
    requires |t| <= 16
    ensures Splice(Zeros(16), 0, t) == Pad(t)
  {
  }

  /** The encrypting branch of lrz_crypt, on a handle already keyed: CBC
      over the whole blocks, then, when there is a tail, the stolen block. */
  method EncryptInPlace(h: CipherHandle, buf: array<byte>, at: nat, len: nat, tmp0: array<byte>, tmp1: array<byte>)
    returns (err: bool)
    requires h.mode == CBC && at + len <= buf.Length && (len % 16 != 0 ==> len >= 16)
    requires tmp0.Length == 16 && tmp1.Length == 16
    requires buf != tmp0 && buf != tmp1 && tmp0 != tmp1
    modifies h, buf, tmp0, tmp1
    ensures h.key == old(h.key)
    ensures buf[..at] == old(buf[..at]) && buf[at + len..] == old(buf[at + len..])
    ensures !err ==> buf[..] == Splice(old(buf[..]), at, LrzEncrypt(h.aes, h.key, old(h.iv), old(buf[at..at + len])))
  {
    ghost var s0, iv0 := buf[..], h.iv;
    BlockSplit(len);
    var m := len % 16;
    var n := len - m;
    assert m < 16 && n % 16 == 0 && (m != 0 ==> n >= 16);
    ghost var q := s0[at..at + n + m];
    SameSlice(s0, at, at + n + m, at + len);
    SubPrefix(s0, at, at + n + m, n);
    assert buf[at..at + len] == q && buf[at..at + n] == q[..n];
    err := h.Encrypt(buf, at, buf[at..at + n]);
    if err { return; }
    ghost var body := Cbc.Encrypt(h.aes, h.key, iv0, q[..n]);
    assert buf[..] == Splice(s0, at, body) && h.iv == Cbc.Chain(iv0, body);
    SpliceFrame(s0, at, body, len);
    if m != 0 {
      err := EncryptTailInPlace(h, buf, at, m, n, tmp0, tmp1, s0, iv0, q);
      if err { return; }
    } else {
      assert q[..n] == q;
      WholeBlocks(h.aes, h.key, iv0, q);
    }
    SpliceFrame(s0, at, LrzEncrypt(h.aes, h.key, iv0, q), len);
  }

  /** The encrypting branch once the whole blocks are written, when the
      range ends in a fragment of M bytes: the stolen block and the
      fragment take their place after the whole blocks. */
  method EncryptTailInPlace(h: CipherHandle, buf: array<byte>, at: nat, m: nat, n: nat, tmp0: array<byte>, tmp1: array<byte>,
                            ghost s0: seq<byte>, ghost iv0: Block, ghost q: seq<byte>)
    returns (err: bool)
    requires h.mode == CBC && 0 < m < 16 <= n && n % 16 == 0 && |q| == n + m && at + n + m <= buf.Length == |s0|
    requires tmp0.Length == 16 && tmp1.Length == 16
    requires buf != tmp0 && buf != tmp1 && tmp0 != tmp1
    requires s0[at..at + n + m] == q
    requires var body := Cbc.Encrypt(h.aes, h.key, iv0, q[..n]);
      buf[..] == Splice(s0, at, body) && h.iv == Cbc.Chain(iv0, body)
    modifies h, buf, tmp0, tmp1
    ensures h.key == old(h.key)
    ensures err ==> buf[..] == old(buf[..])
    ensures !err ==> buf[..] == Splice(s0, at, LrzEncrypt(h.aes, h.key, iv0, q))
  {
    ghost var body := Cbc.Encrypt(h.aes, h.key, iv0, q[..n]);
    StolenPieces(s0, at, body, q, m, n);
    ghost var f, t := body[n - 16..n - 16 + m], Cbc.Encrypt(h.aes, h.key, h.iv, Pad(q[n..]));
    err := EncryptStolen(h, buf, at, m, n, tmp0, tmp1, f, q[n..]);
    if err { return; }
    assert buf[..] == Splice(Splice(Splice(s0, at, body), at + n, f), at + n - 16, t);
    EncryptAssemble(h.aes, h.key, iv0, q, s0, at, m, n, buf[..]);
  }

  /** After the whole blocks are written, the M bytes that become the
      fragment lie in the last whole ciphertext block, and the plain tail
      is still in place after it. */
  lemma StolenPieces(s0: seq<byte>, at: nat, body: seq<byte>, q: seq<byte>, m: nat, n: nat)
    requires 0 < m < 16 <= n && |body| == n && |q| == n + m && at + n + m <= |s0|
    requires s0[at..at + n + m] == q
    ensures Splice(s0, at, body)[at + n - 16..at + n - 16 + m] == body[n - 16..n - 16 + m]
    ensures Splice(s0, at, body)[at + n..at + n + m] == q[n..]
  {
    SpliceInside(s0, at, body, at + n - 16, at + n - 16 + m, n - 16, n - 16 + m);
    SpliceKeeps(s0, at, body, at + n, at + n + m);
    SubSuffix(s0, at, at + n + m, n);
  }

  /** The buffer after the encrypting branch's writes (CBC over the whole
      blocks, the copied fragment, the stolen block) is lrz_crypt's
      encryption of the range. */
  lemma EncryptAssemble(aes: Aes, k: Block, iv0: Block, q: seq<byte>, s0: seq<byte>, at: nat, m: nat, n: nat, s3: seq<byte>)
    requires 0 < m < 16 <= n && n % 16 == 0 && |q| == n + m && at + n + m <= |s0|
    requires var body := Cbc.Encrypt(aes, k, iv0, q[..n]);
      var t := Cbc.Encrypt(aes, k, Cbc.Chain(iv0, body), Pad(q[n..]));
      s3 == Splice(Splice(Splice(s0, at, body), at + n, body[n - 16..n - 16 + m]), at + n - 16, t)
    ensures s3 == Splice(s0, at, LrzEncrypt(aes, k, iv0, q))
  {
    var body := Cbc.Encrypt(aes, k, iv0, q[..n]);
    var t := Cbc.Encrypt(aes, k, Cbc.Chain(iv0, body), Pad(q[n..]));
    EncryptLayout(s0, at, m, n, body, t);
    EncryptTail(aes, k, iv0, q, m, n);
  }

  /** The tail of the encrypting branch: the zero-padded last M bytes are
      encrypted as one more CBC block, the M bytes before the last whole
      block are copied over the tail, and the new block takes the place of
      the last whole block. */
  method EncryptStolen(h: CipherHandle, buf: array<byte>, at: nat, m: nat, n: nat, tmp0: array<byte>, tmp1: array<byte>,
                       ghost f: seq<byte>, ghost tail: seq<byte>)
    returns (err: bool)
    requires h.mode == CBC && 0 < m < 16 <= n && at + n + m <= buf.Length
    requires tmp0.Length == 16 && tmp1.Length == 16
    requires buf != tmp0 && buf != tmp1 && tmp0 != tmp1
    requires buf[at + n - 16..at + n - 16 + m] == f && buf[at + n..at + n + m] == tail
    modifies h, buf, tmp0, tmp1
    ensures h.key == old(h.key)
    ensures err ==> buf[..] == old(buf[..])
    ensures !err ==>
      buf[..] == Splice(Splice(old(buf[..]), at + n, f), at + n - 16, Cbc.Encrypt(h.aes, h.key, old(h.iv), Pad(tail)))
  {
    ghost var s1 := buf[..];
    PadInto(tmp0, buf, at + n, m, tail);
    err := h.Encrypt(tmp1, 0, tmp0[..]);
    if err { return; }
    ghost var t := Cbc.Encrypt(h.aes, h.key, old(h.iv), Pad(tail));
    assert tmp1[..] == t;
    Memcpy(buf, at + n, buf[at + n - 16..at + n - 16 + m]);
    assert buf[..] == Splice(s1, at + n, f);
    Memcpy(buf, at + n - 16, tmp1[..]);
  }

  /** memset(tmp, 0, 16) then memcpy(tmp, buf + lo, M): the zero-padded
      fragment. */
  method PadInto(tmp: array<byte>, buf: array<byte>, lo: nat, m: nat, ghost tail: seq<byte>)
    requires tmp.Length == 16 && tmp != buf && m <= 16 && lo + m <= buf.Length
    requires buf[lo..lo + m] == tail
    modifies tmp
    ensures tmp[..] == Pad(tail)
  {
    Memzero(tmp);
    PadIsSplice(tail);
    Memcpy(tmp, 0, buf[lo..lo + m]);
  }

  /** The decrypting branch of lrz_crypt, on a CBC handle keyed with `k`:
      plain CBC when the length is a whole number of blocks, the stolen
      layout otherwise. */
  method DecryptInPlace(h: CipherHandle, k: Block, buf: array<byte>, at: nat, len: nat, tmp0: array<byte>, tmp1: array<byte>)
    returns (err: bool)
    requires h.mode == CBC && h.key == k && at + len <= buf.Length && (len % 16 != 0 ==> len >= 16)
    requires tmp0.Length == 16 && tmp1.Length == 16
    requires buf != tmp0 && buf != tmp1 && tmp0 != tmp1
    modifies h, buf, tmp0, tmp1
    ensures h.key == old(h.key)
    ensures buf[..at] == old(buf[..at]) && buf[at + len..] == old(buf[at + len..])
    ensures !err ==> buf[..] == Splice(old(buf[..]), at, LrzDecrypt(h.aes, k, old(h.iv), old(buf[at..at + len])))
  {
    ghost var s0, iv0 := buf[..], h.iv;
    ghost var p := s0[at..at + len];
    BlockSplit(len);
    var m := len % 16;
    var n := len - m;
    assert m < 16 && n % 16 == 0 && (m != 0 ==> n >= 16);
    if m != 0 {
      err := DecryptTailInPlace(h, k, buf, at, len, m, n, tmp0, tmp1, s0, iv0, p);
    } else {
      ghost var d := Cbc.Decrypt(h.aes, k, iv0, p);
      assert buf[at..at + len] == p && |p| % 16 == 0;
      err := h.Decrypt(buf, at, buf[at..at + len]);
      if err { return; }
      assert buf[..] == Splice(s0, at, d);
      WholeBlocks(h.aes, k, iv0, p);
      SpliceFrame(s0, at, d, len);
    }
  }

  /** The decrypting branch when the range of `len` = N + M bytes ends in a
      fragment (M not zero), from the buffer s0 and the chaining value iv0. */
  method DecryptTailInPlace(h: CipherHandle, k: Block, buf: array<byte>, at: nat, len: nat, m: nat, n: nat,
                            tmp0: array<byte>, tmp1: array<byte>, ghost s0: seq<byte>, ghost iv0: Block, ghost p: seq<byte>)
    returns (err: bool)
    requires h.mode == CBC && h.key == k && at + len <= buf.Length
    requires 0 < m < 16 <= n && n % 16 == 0 && n + m == len
    requires tmp0.Length == 16 && tmp1.Length == 16
    requires buf != tmp0 && buf != tmp1 && tmp0 != tmp1
    requires buf[..] == s0 && h.iv == iv0 && p == s0[at..at + len]
    modifies h, buf, tmp0, tmp1
    ensures h.key == old(h.key)
    ensures buf[..at] == s0[..at] && buf[at + len..] == s0[at + len..]
    ensures !err ==> buf[..] == Splice(s0, at, LrzDecrypt(h.aes, k, iv0, p))
  {
    ghost var c1, t, frag := p[..n - 16], p[n - 16..n], p[n..];
    SubPrefix(s0, at, at + len, n - 16);
    SubSlice(s0, at, at + len, n - 16, n);
    SubSuffix(s0, at, at + len, n);
    BlockSplit(n);
    err := DecryptTailed(h, k, buf, at, m, n, tmp0, tmp1, c1, t, frag);
    if err { return; }
    DecryptAssemble(h.aes, k, iv0, p, s0, at, m, n, buf[..]);
    SpliceFrame(s0, at, LrzDecrypt(h.aes, k, iv0, p), len);
  }

  /** The decrypting branch when M is not zero: an ECB handle keyed alike,
      CBC over C_1 .. C_{k-2} (the range up to the stored block T), then
      the stolen block (see `DecryptStolen`). The range is c1 + t + frag. */
  method DecryptTailed(h: CipherHandle, k: Block, buf: array<byte>, at: nat, m: nat, n: nat, tmp0: array<byte>, tmp1: array<byte>,
                       ghost c1: seq<byte>, ghost t: seq<byte>, ghost frag: seq<byte>)
    returns (err: bool)
    requires h.mode == CBC && h.key == k && 0 < m < 16 <= n && n % 16 == 0 && at + n + m <= buf.Length
    requires tmp0.Length == 16 && tmp1.Length == 16
    requires buf != tmp0 && buf != tmp1 && tmp0 != tmp1
    requires |c1| % 16 == 0 && buf[at..at + n - 16] == c1 && buf[at + n - 16..at + n] == t && buf[at + n..at + n + m] == frag
    modifies h, buf, tmp0, tmp1
    ensures h.key == old(h.key)
    ensures buf[..at] == old(buf[..at]) && buf[at + n + m..] == old(buf[at + n + m..])
    ensures !err ==>
      var x := Xor(Cbc.EcbDecrypt(h.aes, k, t), Pad(frag));
      var head := Splice(old(buf[..]), at, Cbc.Decrypt(h.aes, k, old(h.iv), c1));
      buf[..] == Splice(Splice(head, at + n, x[..m]), at + n - 16, Cbc.Decrypt(h.aes, k, Cbc.Chain(old(h.iv), c1), frag + x[m..]))
  {
    var ecb, err' := CipherOpen(h.aes, ECB);
    if err' { return err'; }
    err := ecb.SetKey(k);
    if err { return; }
    err := DecryptHead(h, buf, at, m, n, c1, t, frag);
    if err { return; }
    ghost var s1 := buf[..];
    err := DecryptStolen(h, ecb, buf, at, m, n, tmp0, tmp1, t, frag);
    PrefixOfPrefix(buf[..], s1, at + n - 16, at);
  }

  /** CBC over C_1 .. C_{k-2} in place; T and the fragment after it stay
      where they are. */
  method DecryptHead(h: CipherHandle, buf: array<byte>, at: nat, m: nat, n: nat,
                     ghost c1: seq<byte>, ghost t: seq<byte>, ghost frag: seq<byte>)
    returns (err: bool)
    requires h.mode == CBC && 0 < m < 16 <= n && n % 16 == 0 && at + n + m <= buf.Length
    requires |c1| % 16 == 0 && buf[at..at + n - 16] == c1 && buf[at + n - 16..at + n] == t && buf[at + n..at + n + m] == frag
    modifies h, buf
    ensures h.key == old(h.key)
    ensures buf[..at] == old(buf[..at]) && buf[at + n + m..] == old(buf[at + n + m..])
    ensures !err ==> buf[..] == Splice(old(buf[..]), at, Cbc.Decrypt(h.aes, h.key, old(h.iv), c1))
    ensures !err ==> h.iv == Cbc.Chain(old(h.iv), c1)
    ensures !err ==> buf[at + n - 16..at + n] == t && buf[at + n..at + n + m] == frag
  {
    ghost var s0 := buf[..];
    err := h.Decrypt(buf, at, buf[at..at + n - 16]);
    if err { return; }
    HeadKeeps(s0, at, m, n, Cbc.Decrypt(h.aes, h.key, old(h.iv), c1), t, frag);
  }

  /** Writing the first N - 16 bytes of the range leaves everything from
      T on, and everything outside the range, as it was. */
  lemma HeadKeeps(s0: seq<byte>, at: nat, m: nat, n: nat, head: seq<byte>, t: seq<byte>, frag: seq<byte>)
    requires 0 < m < 16 <= n && at + n + m <= |s0| && |head| == n - 16
    requires s0[at + n - 16..at + n] == t && s0[at + n..at + n + m] == frag
    ensures Splice(s0, at, head)[..at] == s0[..at] && Splice(s0, at, head)[at + n + m..] == s0[at + n + m..]
    ensures Splice(s0, at, head)[at + n - 16..at + n] == t && Splice(s0, at, head)[at + n..at + n + m] == frag
  {
    SpliceFrame(s0, at, head, n + m);
    SpliceKeeps(s0, at, head, at + n - 16, at + n);
    SpliceKeeps(s0, at, head, at + n, at + n + m);
  }

  /** The buffer after the decrypting branch's three writes (the CBC head,
      the recovered tail, the last whole block) is lrz_crypt's decryption
      of the range. */
  lemma DecryptAssemble(aes: Aes, k: Block, iv0: Block, p: seq<byte>, s0: seq<byte>, at: nat, m: nat, n: nat, s3: seq<byte>)
    requires 0 < m < 16 <= n && n % 16 == 0 && |p| == n + m && at + n + m <= |s0|
    requires var c1 := p[..n - 16];
      var x := Xor(Cbc.EcbDecrypt(aes, k, p[n - 16..n]), Pad(p[n..]));
      var last := Cbc.Decrypt(aes, k, Cbc.Chain(iv0, c1), p[n..] + x[m..]);
      s3 == Splice(Splice(Splice(s0, at, Cbc.Decrypt(aes, k, iv0, c1)), at + n, x[..m]), at + n - 16, last)
    ensures s3 == Splice(s0, at, LrzDecrypt(aes, k, iv0, p))
  {
    var c1 := p[..n - 16];
    var x := Xor(Cbc.EcbDecrypt(aes, k, p[n - 16..n]), Pad(p[n..]));
    var last := Cbc.Decrypt(aes, k, Cbc.Chain(iv0, c1), p[n..] + x[m..]);
    DecryptLayout(s0, at, m, n, Cbc.Decrypt(aes, k, iv0, c1), x, last);
    DecryptTail(aes, k, iv0, p, m, n);
  }

  /** The tail of the decrypting branch: the stored block T and the
      fragment C_k[0..M) are combined into X (see `RecoverTail`); the first
      M bytes of X are the plaintext tail, and C_k, completed with the rest
      of X, is CBC-decrypted in place of T. */
  method DecryptStolen(h: CipherHandle, ecb: CipherHandle, buf: array<byte>, at: nat, m: nat, n: nat,
                       tmp0: array<byte>, tmp1: array<byte>, ghost t: seq<byte>, ghost frag: seq<byte>)
    returns (err: bool)
    requires h.mode == CBC && ecb.mode == ECB && ecb.aes == h.aes && h != ecb
    requires 0 < m < 16 <= n && at + n + m <= buf.Length
    requires tmp0.Length == 16 && tmp1.Length == 16
    requires buf != tmp0 && buf != tmp1 && tmp0 != tmp1
    requires buf[at + n - 16..at + n] == t && buf[at + n..at + n + m] == frag
    modifies h, ecb, buf, tmp0, tmp1
    ensures h.key == old(h.key)
    ensures buf[..at + n - 16] == old(buf[..at + n - 16]) && buf[at + n + m..] == old(buf[at + n + m..])
    ensures !err ==>
      var x := Xor(Cbc.EcbDecrypt(h.aes, old(ecb.key), t), Pad(frag));
      buf[..] == Splice(Splice(old(buf[..]), at + n, x[..m]), at + n - 16, Cbc.Decrypt(h.aes, h.key, old(h.iv), frag + x[m..]))
  {
    ghost var s1 := buf[..];
    err := RecoverTail(ecb, buf, at, m, n, tmp0, tmp1, t, frag);
    if err { return; }
    ghost var x := tmp0[..];
    Memcpy(buf, at + n, tmp0[..m]);
    ghost var s2 := buf[..];
    SpliceFrame(s1, at + n, x[..m], m);
    PrefixOfPrefix(s2, s1, at + n, at + n - 16);
    PadThenCopy(frag, x[m..]);
    Memcpy(tmp1, m, tmp0[m..]);
    assert tmp1[..] == frag + x[m..];
    err := h.Decrypt(buf, at + n - 16, tmp1[..]);
    if err { return; }
    SpliceFrame(s2, at + n - 16, Cbc.Decrypt(h.aes, h.key, old(h.iv), frag + x[m..]), 16 + m);
  }

  /** memcpy(tmp1 + M, tmp0 + M, 16 - M) over the zero-padded fragment
      completes it with the copied bytes. */
  lemma PadThenCopy(f: seq<byte>, y: seq<byte>)
    requires |f| + |y| == 16
    ensures Splice(Pad(f), |f|, y) == f + y
  {
    assert Pad(f)[..|f|] == f;
  }

  /** The ECB decryption of T into tmp0, the zero-padded fragment in tmp1,
      and tmp0 ^= tmp1. */
  method RecoverTail(ecb: CipherHandle, buf: array<byte>, at: nat, m: nat, n: nat, tmp0: array<byte>, tmp1: array<byte>,
                     ghost t: seq<byte>, ghost frag: seq<byte>)
    returns (err: bool)
    requires ecb.mode == ECB && 0 < m < 16 <= n && at + n + m <= buf.Length
    requires tmp0.Length == 16 && tmp1.Length == 16
    requires buf != tmp0 && buf != tmp1 && tmp0 != tmp1
    requires buf[at + n - 16..at + n] == t && buf[at + n..at + n + m] == frag
    modifies ecb, tmp0, tmp1
    ensures ecb.key == old(ecb.key)
    ensures !err ==> tmp1[..] == Pad(frag) && tmp0[..] == Xor(Cbc.EcbDecrypt(ecb.aes, ecb.key, t), Pad(frag))
  {
    err := ecb.Decrypt(tmp0, 0, buf[at + n - 16..at + n]);
    if err { return; }
    SpliceAll(old(tmp0[..]), Cbc.EcbDecrypt(ecb.aes, ecb.key, t));
    ghost var d := tmp0[..];
    assert d == Cbc.EcbDecrypt(ecb.aes, ecb.key, t);
    Memzero(tmp1);
    PadIsSplice(frag);
    Memcpy(tmp1, 0, buf[at + n..at + n + m]);
    assert tmp1[..] == Pad(frag);
    assert tmp0[..] == d;
    Xor128(tmp0, tmp1);
  }

  /** The cipher part of lrz_crypt: a CBC handle keyed with `k` and `iv`
      transforms buf[at .. at + len) in place. Any libgcrypt failure ends
      it (the `goto error` of the source) with `err` set. */
  method CryptRange(aes: Aes, k: Block, iv: Block, buf: array<byte>, at: nat, len: nat, direction: Direction)
    returns (err: bool)
    requires at + len <= buf.Length && (len % 16 != 0 ==> len >= 16)
    modifies buf
    ensures buf[..at] == old(buf[..at]) && buf[at + len..] == old(buf[at + len..])
    ensures !err ==> buf[..] == Splice(old(buf[..]), at, Transform(aes, k, iv, old(buf[at..at + len]), direction))
  {
    var tmp0 := new byte[16];
    var tmp1 := new byte[16];
    label error: {
      var h;
      h, err := CipherOpen(aes, CBC);
      if err { break error; }
      err := h.SetKey(k);
      if err { break error; }
      err := h.SetIv(iv);
      if err { break error; }
      if direction == Encrypt {
        err := EncryptInPlace(h, buf, at, len, tmp0, tmp1);
      } else {
        err := DecryptInPlace(h, k, buf, at, len, tmp0, tmp1);
      }
    }
  }

  /** lrz_crypt: derives the block's key and IV from `salt`, transforms
      buf[at .. at + len) in place, and zeroes the key and IV (`keyMem` and
      `ivMem` are those two local buffers) on every return. */
  method LrzCrypt(lib: Library, control: Control, buf: array<byte>, at: nat, len: int,
                  salt: seq<byte>, direction: Direction)
    returns (ok: bool, ghost keyMem: array<byte>, ghost ivMem: array<byte>)
    requires control.KeyMaterial() && |salt| == SALT_LEN
    requires 0 <= len <= INT_MAX && at + len <= buf.Length
    requires len % 16 != 0 ==> len >= 16
    modifies buf
    ensures fresh(keyMem) && fresh(ivMem)
    ensures keyMem[..] == Zeros(HASH_LEN) && ivMem[..] == Zeros(HASH_LEN)
    ensures buf[..at] == old(buf[..at]) && buf[at + len..] == old(buf[at + len..])
    ensures ok ==> buf[at..at + len] == Crypt(lib, control.hash, control.saltPass, salt, old(buf[at..at + len]), direction)
  {
    var key := new byte[HASH_LEN];
    var iv := new byte[HASH_LEN];
    keyMem, ivMem := key, iv;
    ok := false;

    ghost var scratch := LrzKeygen(lib, control, salt, key, iv);
    ghost var before, p := buf[..], buf[at..at + len];
    var err := CryptRange(lib.aes, key[..16], iv[..16], buf, at, len, direction);
    if !err {
      SpliceParts(before, at, Crypt(lib, control.hash, control.saltPass, salt, p, direction));
      ok := true;
    }
    Memzero(iv);
    Memzero(key);
  }
}
