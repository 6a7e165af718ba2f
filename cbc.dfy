/** The block-cipher modes libgcrypt runs for the encryption layer, as
    functions of whole byte strings: CBC (section 6.2 of NIST SP 800-38A),
    ECB decryption, and, as an independent reference for the ciphertext-
    stealing framing, CBC-CS2 from the addendum to NIST SP 800-38A on
    ciphertext stealing. */
module Cbc {
  import opened Bytes
  import opened Primitives

  /** C_1 = CIPH_K(P_1 xor IV), C_j = CIPH_K(P_j xor C_(j-1)). */
  function Encrypt(aes: Aes, k: Block, iv: Block, p: seq<byte>): (c: seq<byte>)
    requires |p| % 16 == 0
    ensures |c| == |p|
    decreases |p|
  {
    if p == [] then []
    else
      var c1 := aes.encrypt(k, Xor(p[..16], iv));
      c1 + Encrypt(aes, k, c1, p[16..])
  }

  /** P_1 = CIPH^-1_K(C_1) xor IV, P_j = CIPH^-1_K(C_j) xor C_(j-1). */
  function Decrypt(aes: Aes, k: Block, iv: Block, c: seq<byte>): (p: seq<byte>)
    requires |c| % 16 == 0
    ensures |p| == |c|
    decreases |c|
  {
    if c == [] then []
    else Xor(aes.decrypt(k, c[..16]), iv) + Decrypt(aes, k, c[..16], c[16..])
  }

  /** The chaining value a CBC handle holds after it has processed the
      ciphertext `c`: the last ciphertext block, or the IV if there was none. */
  function Chain(iv: Block, c: seq<byte>): Block
    requires |c| % 16 == 0
  {
    if c == [] then iv else c[|c| - 16..]
  }

  /** ECB decryption: every block on its own. */
  function EcbDecrypt(aes: Aes, k: Block, c: seq<byte>): (p: seq<byte>)
    requires |c| % 16 == 0
    ensures |p| == |c|
    decreases |c|
  {
    if c == [] then [] else aes.decrypt(k, c[..16]) + EcbDecrypt(aes, k, c[16..])
  }

  /** On a single block, CBC is one cipher call on the block xored with the
      chaining value, and ECB decryption one inverse call. */
  lemma OneBlock(aes: Aes, k: Block, iv: Block, b: Block)
    ensures Encrypt(aes, k, iv, b) == aes.encrypt(k, Xor(b, iv))
    ensures Chain(iv, Encrypt(aes, k, iv, b)) == aes.encrypt(k, Xor(b, iv))
    ensures EcbDecrypt(aes, k, b) == aes.decrypt(k, b)
  {
    assert b[..16] == b && b[16..] == [];
    assert Encrypt(aes, k, iv, b) == aes.encrypt(k, Xor(b, iv)) + [];
    assert EcbDecrypt(aes, k, b) == aes.decrypt(k, b) + [];
  }

  lemma {:induction false} RoundTrip(aes: Aes, k: Block, iv: Block, p: seq<byte>)
    requires aes.Inverts() && |p| % 16 == 0
    ensures Decrypt(aes, k, iv, Encrypt(aes, k, iv, p)) == p
    decreases |p|
  {
    if p != [] {
      var c := Encrypt(aes, k, iv, p);
      var c1 := aes.encrypt(k, Xor(p[..16], iv));
      assert c[..16] == c1 && c[16..] == Encrypt(aes, k, c1, p[16..]);
      RoundTrip(aes, k, c1, p[16..]);
      XorCancel(p[..16], iv);
      assert Decrypt(aes, k, iv, c) == p[..16] + p[16..];
    }
  }

  /** Encrypting in two calls on one handle is encrypting once. */
  lemma {:induction false} EncryptAppend(aes: Aes, k: Block, iv: Block, a: seq<byte>, b: seq<byte>)
    requires |a| % 16 == 0 && |b| % 16 == 0
    ensures Encrypt(aes, k, iv, a + b)
         == Encrypt(aes, k, iv, a) + Encrypt(aes, k, Chain(iv, Encrypt(aes, k, iv, a)), b)
    decreases |a|
  {
    if a != [] {
      assert (a + b)[..16] == a[..16] && (a + b)[16..] == a[16..] + b;
      var c1: Block := aes.encrypt(k, Xor(a[..16], iv));
      var rest := Encrypt(aes, k, c1, a[16..]);
      ChainStep(iv, c1 + rest);
      assert (c1 + rest)[..16] == c1 && (c1 + rest)[16..] == rest;
      EncryptAppend(aes, k, c1, a[16..], b);
      ConcatAssoc(c1, rest, Encrypt(aes, k, Chain(c1, rest), b));
    } else {
      assert a + b == b;
    }
  }

  /** Decrypting in two calls on one handle is decrypting once. */
  lemma {:induction false} DecryptAppend(aes: Aes, k: Block, iv: Block, a: seq<byte>, b: seq<byte>)
    requires |a| % 16 == 0 && |b| % 16 == 0
    ensures Decrypt(aes, k, iv, a + b) == Decrypt(aes, k, iv, a) + Decrypt(aes, k, Chain(iv, a), b)
    decreases |a|
  {
    if a != [] {
      assert (a + b)[..16] == a[..16] && (a + b)[16..] == a[16..] + b;
      ChainStep(iv, a);
      DecryptAppend(aes, k, a[..16], a[16..], b);
      ConcatAssoc(Xor(aes.decrypt(k, a[..16]), iv), Decrypt(aes, k, a[..16], a[16..]), Decrypt(aes, k, Chain(iv, a), b));
    } else {
      assert a + b == b;
    }
  }

  /** The chaining value after a non-empty run is the one after its blocks
      past the first, starting from the first. */
  lemma ChainStep(iv: Block, c: seq<byte>)
    requires c != [] && |c| % 16 == 0
    ensures Chain(iv, c) == Chain(c[..16], c[16..])
  {
    if |c| > 16 {
      assert c[16..][|c| - 32..] == c[|c| - 16..];
    }
  }

  /** CBC-CS2: zero-pad the last block, CBC-encrypt, truncate the
      penultimate ciphertext block to the length d of the last plaintext
      block, and, when d is less than a full block, swap the last two. */
  function Cs2Encrypt(aes: Aes, k: Block, iv: Block, p: seq<byte>): (c: seq<byte>)
    requires |p| >= 16
    ensures |c| == |p|
  {
    var d := |p| % 16;
    var n := |p| - d;
    if d == 0 then Encrypt(aes, k, iv, p)
    else
      var full := Encrypt(aes, k, iv, p + Zeros(16 - d));
      full[..n - 16] + full[n..] + full[n - 16..n - 16 + d]
  }
}
