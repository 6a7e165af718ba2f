/** Bytes, fixed-width integers as byte strings, C integer arithmetic and the
    two libc memory primitives (memcpy, memset) the crypto code is written with. */
module Bytes {

  /** An unsigned char. */
  newtype byte = x: int | 0 <= x < 256

  /** A C `int64_t` value. */
  type i64 = x: int | -0x8000_0000_0000_0000 <= x < 0x8000_0000_0000_0000

  function Zeros(n: nat): (z: seq<byte>)
    ensures |z| == n && forall i :: 0 <= i < n ==> z[i] == 0
  {
    seq(n, _ => 0)
  }

  // ---------------------------------------------------------------------
  // Bitwise exclusive or

  function Pow2(n: nat): (r: nat)
    ensures r > 0
  {
    if n == 0 then 1 else 2 * Pow2(n - 1)
  }

  lemma {:induction false} Pow2Monotone(a: nat, b: nat)
    requires a <= b
    ensures Pow2(a) <= Pow2(b)
    decreases b
  {
    if a < b {
      Pow2Monotone(a, b - 1);
    }
  }

  /** a ^ b on the k low-order bits, least significant bit last. */
  function BitXor(a: nat, b: nat, k: nat): (r: nat)
    requires a < Pow2(k) && b < Pow2(k)
    ensures r < Pow2(k)
  {
    if k == 0 then 0
    else 2 * BitXor(a / 2, b / 2, k - 1) + (if a % 2 == b % 2 then 0 else 1)
  }

  /** Xoring with zero changes nothing. */
  lemma {:induction false} BitXorZero(a: nat, k: nat)
    requires a < Pow2(k)
    ensures BitXor(a, 0, k) == a && BitXor(0, a, k) == a
  {
    if k > 0 {
      BitXorZero(a / 2, k - 1);
    }
  }

  /** Xoring twice with the same bits gives back the original. */
  lemma {:induction false} BitXorCancel(a: nat, b: nat, k: nat)
    requires a < Pow2(k) && b < Pow2(k)
    ensures BitXor(BitXor(a, b, k), b, k) == a
  {
    if k > 0 {
      var r := BitXor(a, b, k);
      var h, bit := BitXor(a / 2, b / 2, k - 1), if a % 2 == b % 2 then 0 else 1;
      assert r == 2 * h + bit && r / 2 == h && r % 2 == bit;
      BitXorCancel(a / 2, b / 2, k - 1);
    }
  }

  function XorByte(a: byte, b: byte): byte
  {
    assert Pow2(8) == 256;
    BitXor(a as nat, b as nat, 8) as byte
  }

  lemma XorByteLaws(a: byte, b: byte)
    ensures XorByte(a, 0) == a && XorByte(0, a) == a
    ensures XorByte(XorByte(a, b), b) == a
  {
    assert Pow2(8) == 256;
    BitXorZero(a as nat, 8);
    BitXorCancel(a as nat, b as nat, 8);
  }

  /** Byte-wise exclusive or of two strings of equal length. */
  function Xor(a: seq<byte>, b: seq<byte>): (r: seq<byte>)
    requires |a| == |b|
    ensures |r| == |a| && forall i :: 0 <= i < |a| ==> r[i] == XorByte(a[i], b[i])
  {
    seq(|a|, i requires 0 <= i < |a| => XorByte(a[i], b[i]))
  }

  lemma XorCancel(a: seq<byte>, b: seq<byte>)
    requires |a| == |b|
    ensures Xor(Xor(a, b), b) == a
  {
    forall i | 0 <= i < |a|
      ensures Xor(Xor(a, b), b)[i] == a[i]
    {
      XorByteLaws(a[i], b[i]);
    }
  }

  // ---------------------------------------------------------------------
  // Little-endian encoding (htole64, and the in-memory layout of an i64 on
  // a little-endian host)

  function Pow256(n: nat): (r: nat)
    ensures r > 0
  {
    if n == 0 then 1 else 256 * Pow256(n - 1)
  }

  /** The `n` low-order bytes of `x`, least significant first. */
  function LeBytes(x: nat, n: nat): (b: seq<byte>)
    ensures |b| == n
  {
    if n == 0 then [] else [(x % 256) as byte] + LeBytes(x / 256, n - 1)
  }

  /** The unsigned value of a little-endian byte string. */
  function LeValue(b: seq<byte>): (v: nat)
    ensures v < Pow256(|b|)
  {
    if b == [] then 0 else b[0] as nat + 256 * LeValue(b[1..])
  }

  lemma {:induction false} LeValueOfLeBytes(x: nat, n: nat)
    requires x < Pow256(n)
    ensures LeValue(LeBytes(x, n)) == x
  {
    if n > 0 {
      var d, q := x % 256, x / 256;
      DivModBound(x, Pow256(n - 1));
      LeValueOfLeBytes(q, n - 1);
      var b := LeBytes(x, n);
      assert b[0] as nat == d && b[1..] == LeBytes(q, n - 1);
    }
  }

  lemma {:induction false} LeBytesOfLeValue(b: seq<byte>)
    ensures LeBytes(LeValue(b), |b|) == b
  {
    if b != [] {
      var d, r := b[0] as nat, LeValue(b[1..]);
      DivModByte(d, r);
      LeBytesOfLeValue(b[1..]);
      assert LeBytes(LeValue(b), |b|) == [b[0]] + b[1..];
    }
  }

  lemma DivModBound(x: nat, p: nat)
    requires x < 256 * p
    ensures x / 256 < p && x == x % 256 + 256 * (x / 256)
  {
  }

  lemma DivModByte(d: nat, r: nat)
    requires d < 256
    ensures (d + 256 * r) % 256 == d && (d + 256 * r) / 256 == r
  {
  }

  lemma Pow256Of8()
    ensures Pow256(8) == 0x1_0000_0000_0000_0000
  {
  }

  /** The eight bytes of an i64 in memory: two's complement, little-endian. */
  function I64Bytes(x: i64): (b: seq<byte>)
    ensures |b| == 8
  {
    LeBytes(if x < 0 then x + 0x1_0000_0000_0000_0000 else x, 8)
  }

  /** The i64 whose in-memory bytes are `b`. */
  function I64Of(b: seq<byte>): i64
    requires |b| == 8
  {
    Pow256Of8();
    var v := LeValue(b);
    if v >= 0x8000_0000_0000_0000 then v - 0x1_0000_0000_0000_0000 else v
  }

  lemma I64OfBytes(x: i64)
    ensures I64Of(I64Bytes(x)) == x
  {
    Pow256Of8();
    LeValueOfLeBytes(if x < 0 then x + 0x1_0000_0000_0000_0000 else x, 8);
  }

  lemma I64BytesOf(b: seq<byte>)
    requires |b| == 8
    ensures I64Bytes(I64Of(b)) == b
  {
    Pow256Of8();
    LeBytesOfLeValue(b);
  }

  // ---------------------------------------------------------------------
  // C's `/` and `%` truncate toward zero (Dafny's are Euclidean)

  /** The quotient C computes: the multiple of b nearest zero that does not
      pass a, so the remainder takes the sign of the dividend. */
  function CDiv(a: int, b: int): (q: int)
    requires b > 0
    ensures a >= 0 ==> q * b <= a < q * b + b
    ensures a < 0 ==> q * b - b < a <= q * b
  {
    if a >= 0 then DivBounds(a, b); a / b
    else DivBounds(-a, b); -((-a) / b)
  }

  lemma DivBounds(a: nat, b: int)
    requires b > 0
    ensures (a / b) * b <= a < (a / b) * b + b
  {
  }

  function CRem(a: int, b: int): (r: int)
    requires b > 0
    ensures a == CDiv(a, b) * b + r
    ensures a >= 0 ==> 0 <= r < b
    ensures a < 0 ==> -b < r <= 0
  {
    if a >= 0 then a % b else -((-a) % b)
  }

  // ---------------------------------------------------------------------
  // libc

  /** `s` with the bytes from `at` on overwritten by `t`. */
  function Splice(s: seq<byte>, at: nat, t: seq<byte>): (r: seq<byte>)
    requires at + |t| <= |s|
    ensures |r| == |s|
  {
    s[..at] + t + s[at + |t|..]
  }

  lemma SpliceParts(s: seq<byte>, at: nat, t: seq<byte>)
    requires at + |t| <= |s|
    ensures Splice(s, at, t)[..at] == s[..at]
    ensures Splice(s, at, t)[at..at + |t|] == t
    ensures Splice(s, at, t)[at + |t|..] == s[at + |t|..]
  {
  }

  lemma ConcatAssoc(a: seq<byte>, b: seq<byte>, c: seq<byte>)
    ensures a + (b + c) == a + b + c
  {
  }

  /** Slices of a concatenation that lie in one of its two parts. */
  lemma ConcatSlices(x: seq<byte>, y: seq<byte>, i: nat, j: nat)
    requires i <= j <= |x|
    ensures (x + y)[..i] == x[..i] && (x + y)[i..j] == x[i..j] && (x + y)[|x|..] == y
  {
    assert forall t :: i <= t < j ==> (x + y)[t] == x[t];
  }

  /** One slice under two spellings of its end. */
  lemma SameSlice(s: seq<byte>, lo: nat, hi: nat, hi': nat)
    requires lo <= hi == hi' <= |s|
    ensures s[lo..hi] == s[lo..hi']
  {
  }

  /** Slices of a slice are slices of the whole. */
  lemma SubSlice(s: seq<byte>, lo: nat, hi: nat, i: nat, j: nat)
    requires lo <= hi <= |s| && i <= j <= hi - lo
    ensures s[lo..hi][i..j] == s[lo + i..lo + j]
  {
    assert forall x :: 0 <= x < j - i ==> s[lo..hi][i..j][x] == s[lo + i + x];
  }

  lemma SubPrefix(s: seq<byte>, lo: nat, hi: nat, j: nat)
    requires lo <= hi <= |s| && j <= hi - lo
    ensures s[lo..hi][..j] == s[lo..lo + j]
  {
  }

  lemma SubSuffix(s: seq<byte>, lo: nat, hi: nat, i: nat)
    requires lo <= hi <= |s| && i <= hi - lo
    ensures s[lo..hi][i..] == s[lo + i..hi]
  {
  }

  /** The three pieces of a concatenation, sliced back out. */
  lemma Concat3(a: seq<byte>, b: seq<byte>, c: seq<byte>)
    ensures (a + b + c)[..|a|] == a
    ensures (a + b + c)[|a|..|a| + |b|] == b
    ensures (a + b + c)[|a| + |b|..] == c
  {
    assert a + b + c == a + (b + c);
  }

  /** Strings that agree up to `j` agree on every slice below `j`. */
  lemma SamePrefix(s: seq<byte>, t: seq<byte>, j: nat, lo: nat, hi: nat)
    requires j <= |s| && j <= |t| && s[..j] == t[..j] && lo <= hi <= j
    ensures s[lo..hi] == t[lo..hi]
  {
    assert forall x :: lo <= x < hi ==> s[x] == s[..j][x] == t[..j][x] == t[x];
  }

  /** A splice leaves every slice after the written bytes alone. */
  lemma SpliceKeeps(s: seq<byte>, at: nat, t: seq<byte>, lo: nat, hi: nat)
    requires at + |t| <= lo <= hi <= |s|
    ensures Splice(s, at, t)[lo..hi] == s[lo..hi]
  {
    var r := Splice(s, at, t);
    assert forall i :: lo <= i < hi ==> r[i] == s[at + |t|..][i - at - |t|] == s[i];
  }

  /** A slice inside the written bytes, at absolute positions lo .. hi. */
  lemma SpliceInside(s: seq<byte>, at: nat, t: seq<byte>, lo: nat, hi: nat, i: nat, j: nat)
    requires at + |t| <= |s| && i <= j <= |t| && lo == at + i && hi == at + j
    ensures Splice(s, at, t)[lo..hi] == t[i..j]
  {
    var r := Splice(s, at, t);
    assert forall x :: lo <= x < hi ==> r[x] == t[x - at];
  }

  lemma PrefixOfPrefix(s: seq<byte>, t: seq<byte>, j: nat, i: nat)
    requires i <= j <= |s| && j <= |t| && s[..j] == t[..j]
    ensures s[..i] == t[..i]
  {
    assert s[..i] == s[..j][..i];
    assert t[..i] == t[..j][..i];
  }

  /** Three copies laid end to end from the start of a buffer. */
  lemma SpliceThree(s: seq<byte>, a: seq<byte>, b: seq<byte>, c: seq<byte>)
    requires |a| + |b| + |c| <= |s|
    ensures var s3 := Splice(Splice(Splice(s, 0, a), |a|, b), |a| + |b|, c);
      s3[..|a| + |b| + |c|] == a + b + c
  {
    var n := |a| + |b| + |c|;
    var s1 := Splice(s, 0, a);
    assert s1 == a + s[|a|..];
    var s2 := Splice(s1, |a|, b);
    assert s2 == a + b + s[|a| + |b|..];
    var s3 := Splice(s2, |a| + |b|, c);
    assert s3 == (a + b + c) + s[n..];
  }

  /** Overwriting the whole string. */
  lemma SpliceAll(s: seq<byte>, t: seq<byte>)
    requires |t| == |s|
    ensures Splice(s, 0, t) == t
  {
    assert s[..0] + t + s[|t|..] == t;
  }

  /** Writing at most `len` bytes at `at` leaves everything outside
      [at, at + len) as it was. */
  lemma SpliceFrame(s: seq<byte>, at: nat, t: seq<byte>, len: nat)
    requires |t| <= len && at + len <= |s|
    ensures Splice(s, at, t)[..at] == s[..at]
    ensures Splice(s, at, t)[at + len..] == s[at + len..]
  {
    var r := Splice(s, at, t);
    assert r == s[..at] + t + s[at + |t|..];
    assert s[at + |t|..][len - |t|..] == s[at + len..];
  }

  /** memcpy(dst + at, src, |src|): the source is read before anything is
      written, so callers pass the bytes they copy as a value. */
  method Memcpy(dst: array<byte>, at: nat, src: seq<byte>)
    requires at + |src| <= dst.Length
    modifies dst
    ensures dst[..] == Splice(old(dst[..]), at, src)
  {
    forall i | at <= i < at + |src| {
      dst[i] := src[i - at];
    }
    assert dst[..] == old(dst[..at]) + src + old(dst[at + |src|..]);
  }

  /** memset(dst, 0, dst.Length) */
  method Memzero(dst: array<byte>)
    modifies dst
    ensures dst[..] == Zeros(dst.Length)
  {
    forall i | 0 <= i < dst.Length {
      dst[i] := 0;
    }
  }
}
