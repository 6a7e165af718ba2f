/** Passphrase stretching (lrz_stretch): the records fed into a SHA-512
    handle, each the little-endian loop counter followed by the passphrase. */
module Stretch {
  import opened Bytes
  import opened Primitives
  import opened Gcrypt
  import opened Control

  const U64_RANGE: int := 0x1_0000_0000_0000_0000

  /** n = encloops * HASH_LEN / (salt_pass_len + sizeof(i64)). The divisor
      is a size_t, so the i64 dividend is converted to unsigned first (C's
      usual arithmetic conversions): a negative product wraps modulo 2^64. */
  function StretchCount(encloops: int, passLen: nat): (n: nat)
    ensures n < U64_RANGE
  {
    var dividend := (encloops * HASH_LEN) % U64_RANGE;
    var n := dividend / (passLen + 8);
    assert n <= dividend;
    n
  }

  /** For the budgets lrzip computes (non-negative, and small enough that
      the product does not wrap), the count is the plain quotient; either
      way, n records of the passphrase fit in the 64-bit byte count. */
  lemma StretchCountValue(encloops: int, passLen: nat)
    ensures var n := StretchCount(encloops, passLen);
      && (0 <= encloops * HASH_LEN < U64_RANGE ==> n == encloops * HASH_LEN / (passLen + 8))
      && n * (passLen + 8) < U64_RANGE
  {
    var dividend := (encloops * HASH_LEN) % U64_RANGE;
    var n := dividend / (passLen + 8);
    assert n * (passLen + 8) <= dividend;
  }

  /** One record: htole64(j) then the passphrase. */
  function Record(pass: seq<byte>, j: nat): (r: seq<byte>)
    requires j < U64_RANGE
    ensures |r| == 8 + |pass| && r[8..] == pass
  {
    LeBytes(j, 8) + pass
  }

  /** Everything written to the hash by the first `n` iterations. */
  function StretchStream(pass: seq<byte>, n: nat): (s: seq<byte>)
    requires n <= U64_RANGE
    ensures |s| % (|pass| + 8) == 0
    ensures |s| == 0 <==> n == 0
  {
    if n == 0 then []
    else
      var prev := StretchStream(pass, n - 1);
      WholeRecords(|prev|, |pass| + 8);
      prev + Record(pass, n - 1)
  }

  lemma WholeRecords(x: nat, w: nat)
    requires w > 0 && x % w == 0
    ensures (x + w) % w == 0
  {
    var k := x / w;
    assert x == k * w;
    assert x + w == (k + 1) * w;
    MulIsMultiple(k + 1, w);
  }

  /** lrz_stretch: opens a SHA-512 handle and writes `n` records to it in
      order of the counter. The source never reads or closes the handle,
      so the method returns it to say what was written. See
      StretchCountValue for the count. */
  method LrzStretch(lib: Library, control: Control) returns (ghost md: MdHandle)
    ensures fresh(md) && md.sha512 == lib.sha512
    ensures md.written == StretchStream(control.saltPass, StretchCount(control.encloops, |control.saltPass|))
  {
    var h := new MdHandle.Open(lib.sha512);
    var n := StretchCount(control.encloops, |control.saltPass|);
    var j := 0;
    while j < n
      invariant 0 <= j <= n
      invariant h.written == StretchStream(control.saltPass, j)
    {
      var counter := LeBytes(j, 8);
      ghost var before := h.written;
      h.Write(counter);
      h.Write(control.saltPass);
      StreamStep(control.saltPass, j, before, counter);
      j := j + 1;
    }
    md := h;
  }

  /** One more iteration appends record j. */
  lemma StreamStep(pass: seq<byte>, j: nat, before: seq<byte>, counter: seq<byte>)
    requires j < U64_RANGE && before == StretchStream(pass, j) && counter == LeBytes(j, 8)
    ensures before + counter + pass == StretchStream(pass, j + 1)
  {
    assert before + counter + pass == before + (counter + pass);
  }

  /** The stream is n records of equal width. */
  lemma {:induction false} StreamLength(pass: seq<byte>, n: nat)
    requires n <= U64_RANGE
    ensures |StretchStream(pass, n)| == n * (|pass| + 8)
  {
    if n > 0 {
      var w := |pass| + 8;
      StreamLength(pass, n - 1);
      assert |StretchStream(pass, n)| == |StretchStream(pass, n - 1)| + w;
      MulStep(n, w);
    }
  }

  lemma MulStep(n: int, w: int)
    ensures (n - 1) * w + w == n * w
  {
  }

  /** A longer run writes what a shorter one does and then more. */
  lemma {:induction false} StreamPrefix(pass: seq<byte>, i: nat, n: nat)
    requires i <= n <= U64_RANGE
    ensures StretchStream(pass, i) <= StretchStream(pass, n)
    decreases n
  {
    if i < n {
      StreamPrefix(pass, i, n - 1);
    }
  }

  /** Record j sits at offset j * (|pass| + 8): its first eight bytes read
      back as the counter j, the rest is the passphrase. */
  lemma RecordAt(pass: seq<byte>, j: nat, n: nat)
    requires j < n <= U64_RANGE
    ensures var w := |pass| + 8;
      var o := j * w;
      var s := StretchStream(pass, n);
      o + w <= |s|
      && s[o..o + w] == Record(pass, j)
      && LeValue(s[o..o + 8]) == j
      && s[o + 8..o + w] == pass
  {
    var w := |pass| + 8;
    var o := j * w;
    var s := StretchStream(pass, n);
    var pre := StretchStream(pass, j + 1);
    var rec := Record(pass, j);
    assert |rec| == w;
    RecordSlot(pass, j);
    StreamPrefix(pass, j + 1, n);
    RecordFields(pass, j);
    SlotInPrefix(s, pre, o, rec);
  }

  /** A piece that ends a prefix of `s` sits at the same offset in `s`, and
      so do its counter and passphrase parts. */
  lemma SlotInPrefix(s: seq<byte>, pre: seq<byte>, o: nat, rec: seq<byte>)
    requires pre <= s && o + |rec| == |pre| && pre[o..] == rec && |rec| >= 8
    ensures o + |rec| <= |s| && s[o..o + |rec|] == rec
    ensures s[o..o + 8] == rec[..8] && s[o + 8..o + |rec|] == rec[8..]
  {
    assert s[..|pre|] == pre;
  }

  /** Record j is the last thing the first j + 1 iterations write. */
  lemma RecordSlot(pass: seq<byte>, j: nat)
    requires j < U64_RANGE
    ensures var pre := StretchStream(pass, j + 1);
      j * (|pass| + 8) + |pass| + 8 == |pre| && pre[j * (|pass| + 8)..] == Record(pass, j)
  {
    StreamLength(pass, j);
  }

  /** A record's first eight bytes read back as its counter. */
  lemma RecordFields(pass: seq<byte>, j: nat)
    requires j < U64_RANGE
    ensures LeValue(Record(pass, j)[..8]) == j
  {
    Pow256Of8();
    LeValueOfLeBytes(j, 8);
    assert Record(pass, j)[..8] == LeBytes(j, 8);
  }


}
