/** The part of lrzip's `rzip_control` record that the utilities read and
    write, and the sizing routines that set its memory fields: the
    compression overhead per thread, the dictionary and ZPAQ block sizes,
    the usable RAM and the page rounding. */
module Control {
  import opened Bytes
  import opened Primitives

  const SALT_LEN: nat := 16
  const PASS_LEN: nat := 512
  const ONE_G: int := 1000 * 1024 * 1024
  const MAX_SIZE_T: int := 0xFFFF_FFFF_FFFF_FFFF

  lemma Pow2Table()
    ensures Pow2(16) == 0x1_0000 && Pow2(24) == 0x100_0000 && Pow2(25) == 0x200_0000
    ensures Pow2(26) == 0x400_0000 && Pow2(27) == 0x800_0000
    ensures Pow2(6) == 64 && Pow2(11) == 2048
  {
    assert Pow2(6) == 64;
    assert Pow2(11) == 2048;
    assert Pow2(16) == 0x1_0000;
    assert Pow2(24) == 0x100_0000;
  }

  function Max(a: int, b: int): int { if a > b then a else b }
  function Min(a: int, b: int): int { if a < b then a else b }

  class Control {
    // The flag tests the routines make (LZMA_COMPRESS, ZPAQ_COMPRESS, STDOUT,
    // STDIN, DECOMPRESS, TEST_ONLY, BITS32).
    var lzmaCompress: bool
    var zpaqCompress: bool
    var toStdout: bool
    var fromStdin: bool
    var decompress: bool
    var testOnly: bool
    var bits32: bool

    var compressionLevel: int
    var dictSize: int          // u32
    var zpaqLevel: int
    var zpaqBs: int            // log2 of the ZPAQ block size in MiB
    var overhead: int          // i64: RAM per compression thread
    var ramsize: int           // i64
    var maxram: int            // i64
    var usableRam: int         // i64

    // Key material
    var hash: seq<byte>        // the session's global hash, HASH_LEN bytes
    var saltPass: seq<byte>    // the passphrase, salt_pass_len bytes
    var encloops: int          // i64: the stretching budget

    ghost predicate KeyMaterial()
      reads this
    {
      |hash| == HASH_LEN && |saltPass| <= PASS_LEN
    }

    /** setup_overhead: choose a dictionary size (LZMA) or a ZPAQ level and
        block size when none was set, and the memory each compression
        thread needs. */
    method SetupOverhead()
      requires 0 <= dictSize < 0x1_0000_0000
      requires !lzmaCompress && zpaqCompress && zpaqBs != 0 ==> 0 < zpaqBs < 31
      modifies this`dictSize, this`zpaqLevel, this`zpaqBs, this`overhead
      ensures lzmaCompress ==>
        && dictSize == (if old(dictSize) == 0 then LzmaDefaultDictSize(compressionLevel) else old(dictSize))
        && overhead == dictSize * 23 / 2 + 6 * 1024 * 1024 + 16384
        && zpaqLevel == old(zpaqLevel) && zpaqBs == old(zpaqBs)
      ensures !lzmaCompress && zpaqCompress ==>
        && dictSize == old(dictSize)
        && (if old(zpaqBs) == 0
            then zpaqLevel == ZpaqDefaultLevel(compressionLevel) && zpaqBs == ZpaqDefaultBlockSize(compressionLevel)
            else zpaqLevel == old(zpaqLevel) && zpaqBs == old(zpaqBs))
        && overhead == Pow2(zpaqBs) * 1024 * 1024
      ensures !lzmaCompress && !zpaqCompress ==>
        dictSize == old(dictSize) && zpaqLevel == old(zpaqLevel) && zpaqBs == old(zpaqBs) && overhead == old(overhead)
      ensures 0 <= dictSize < 0x1_0000_0000
    {
      if lzmaCompress {
        if dictSize == 0 {
          dictSize := LzmaDefaultDictSize(compressionLevel);
        }
        overhead := dictSize * 23 / 2 + 6 * 1024 * 1024 + 16384;
      } else if zpaqCompress {
        if zpaqBs == 0 {
          zpaqLevel := ZpaqDefaultLevel(compressionLevel);
          zpaqBs := ZpaqDefaultBlockSize(compressionLevel);
        }
        overhead := Pow2(zpaqBs) * 1024 * 1024;
      }
    }

    /** setup_ram: the share of the RAM, capped on 32-bit systems, then
        rounded to a page. `pageSize` is PAGE_SIZE. */
    method SetupRam(pageSize: int)
      requires pageSize > 0
      modifies this`maxram, this`usableRam
      ensures usableRam == (if bits32 then Max(ramsize - 900000000, 900000000) else RamShare(ramsize, toStdout, fromStdin, decompress, testOnly))
      ensures maxram == RoundedToPage(if bits32 then Min(Min(RamShare(ramsize, toStdout, fromStdin, decompress, testOnly), usableRam), ONE_G * 2 / 3) else RamShare(ramsize, toStdout, fromStdin, decompress, testOnly), pageSize)
    {
      if toStdout && ((fromStdin && decompress) || !(decompress || testOnly)) {
        maxram := CDiv(ramsize, 6);
      } else {
        maxram := CDiv(ramsize, 3);
      }
      if bits32 {
        usableRam := Max(ramsize - 900000000, 900000000);
        maxram := Min(maxram, usableRam);
        maxram := Min(maxram, ONE_G * 2 / 3);
      } else {
        usableRam := maxram;
      }
      maxram := RoundToPage(maxram, pageSize);
    }
  }

  /** The share of the RAM setup_ram starts from: a sixth when the output
      goes to stdout through a temporary file, a third otherwise. */
  function RamShare(ramsize: int, toStdout: bool, fromStdin: bool, decompress: bool, testOnly: bool): (r: int)
    ensures ramsize >= 0 ==> 0 <= r <= CDiv(ramsize, 3)
    ensures ramsize < 0 ==> CDiv(ramsize, 3) <= r <= 0
  {
    SixthNearerZero(ramsize);
    if toStdout && ((fromStdin && decompress) || !(decompress || testOnly))
    then CDiv(ramsize, 6) else CDiv(ramsize, 3)
  }

  /** What setup_ram leaves in maxram is a whole number of pages, never
      zero, and for a non-negative RAM size at most a third of it (or one
      page), and on 32-bit systems at most two thirds of ONE_G (or one
      page). */
  lemma SetupRamBounds(ramsize: int, toStdout: bool, fromStdin: bool, decompress: bool, testOnly: bool,
                       bits32: bool, pageSize: int)
    requires pageSize > 0
    ensures var share := RamShare(ramsize, toStdout, fromStdin, decompress, testOnly);
      var usable := if bits32 then Max(ramsize - 900000000, 900000000) else share;
      var r := RoundedToPage(if bits32 then Min(Min(share, usable), ONE_G * 2 / 3) else share, pageSize);
      && r % pageSize == 0 && r != 0
      && (ramsize >= 0 ==> 0 < r <= Max(CDiv(ramsize, 3), pageSize))
      && (ramsize >= 0 && bits32 ==> r <= Max(ONE_G * 2 / 3, pageSize))
  {
    var share := RamShare(ramsize, toStdout, fromStdin, decompress, testOnly);
    var usable := if bits32 then Max(ramsize - 900000000, 900000000) else share;
    var capped := if bits32 then Min(Min(share, usable), ONE_G * 2 / 3) else share;
    if ramsize >= 0 {
      assert 0 <= capped <= CDiv(ramsize, 3);
      RoundedBelow(capped, CDiv(ramsize, 3), pageSize);
      if bits32 {
        RoundedBelow(capped, ONE_G * 2 / 3, pageSize);
      }
    }
  }

  /** The dictionary size setup_overhead picks for an LZMA compression
      level: 64 KiB at level 1 up to 128 MiB at level 9, 16 MiB otherwise. */
  function LzmaDefaultDictSize(level: int): (d: int)
    ensures 0x1_0000 <= d <= 0x800_0000
  {
    Pow2Table();
    if 1 <= level <= 5 then
      Pow2Monotone(16, level * 2 + 14);
      Pow2Monotone(level * 2 + 14, 24);
      Pow2(level * 2 + 14)
    else if level == 6 || level == 7 then Pow2(25)
    else if level == 8 then Pow2(26)
    else if level == 9 then Pow2(27)
    else Pow2(24)
  }

  /** The ZPAQ level setup_overhead picks: compression_level / 4 + 3. */
  function ZpaqDefaultLevel(level: int): (z: int)
    ensures 0 <= level <= 9 ==> 3 <= z <= 5
  {
    CDiv(level, 4) + 3
  }

  /** The ZPAQ block size (log2, in MiB) setup_overhead picks: 64 MiB for
      levels up to 5, then 128 MiB, 512 MiB, 1 GiB and 2 GiB. */
  function ZpaqDefaultBlockSize(level: int): (bs: int)
    ensures 6 <= bs <= 11
  {
    match level
    case 1 | 2 | 3 | 4 => 6
    case 6 => 7
    case 7 => 9
    case 8 => 10
    case 9 => 11
    case _ => 6
  }

  lemma LzmaDefaultDictSizeMonotone(a: int, b: int)
    requires 1 <= a <= b <= 9
    ensures LzmaDefaultDictSize(a) <= LzmaDefaultDictSize(b)
  {
    if b <= 5 {
      Pow2Monotone(a * 2 + 14, b * 2 + 14);
    } else {
      var e := if b <= 7 then 25 else if b == 8 then 26 else 27;
      Pow2Monotone(if a <= 5 then a * 2 + 14 else if a <= 7 then 25 else if a == 8 then 26 else 27, e);
    }
  }

  lemma ZpaqDefaultBlockSizeMonotone(a: int, b: int)
    requires 1 <= a <= b <= 9
    ensures ZpaqDefaultBlockSize(a) <= ZpaqDefaultBlockSize(b)
  {
  }

  /** With the default block sizes, a ZPAQ thread needs 64 MiB to 2 GiB. */
  lemma ZpaqDefaultOverhead(level: int)
    ensures 0x400_0000 <= Pow2(ZpaqDefaultBlockSize(level)) * 1024 * 1024 <= 0x8000_0000
  {
    var bs := ZpaqDefaultBlockSize(level);
    Pow2Table();
    Pow2Monotone(6, bs);
    Pow2Monotone(bs, 11);
  }

  lemma MulAtLeast(p: int, d: int)
    requires p > 0 && d >= 1
    ensures p * d >= p
  {
  }

  lemma MulIsMultiple(k: int, p: int)
    requires p > 0
    ensures (k * p) % p == 0
  {
    var q, m := (k * p) / p, (k * p) % p;
    assert p * (k - q) == m;
    if k - q >= 1 {
      MulAtLeast(p, k - q);
    } else if k - q <= -1 {
      MulAtLeast(p, q - k);
    }
  }

  lemma SmallRemainder(size: int, p: int)
    requires 0 <= size < p
    ensures size % p == size
  {
    var q := size / p;
    assert size == q * p + size % p;
    if q >= 1 {
      MulAtLeast(p, q);
    } else if q <= -1 {
      MulAtLeast(p, -q);
    }
  }

  /** `size - size % p` in C: a multiple of p, and for a non-negative size
      the largest one not above it. */
  lemma TruncatedDown(size: int, p: int)
    requires p > 0
    ensures (size - CRem(size, p)) % p == 0
    ensures size >= 0 ==> size - p < size - CRem(size, p) <= size
    ensures size >= p ==> size - CRem(size, p) >= p
    ensures 0 <= size < p ==> CRem(size, p) == size
  {
    if size >= 0 {
      var q := size / p;
      assert size - CRem(size, p) == q * p;
      MulIsMultiple(q, p);
      if size >= p {
        MulAtLeast(p, q);
      } else {
        SmallRemainder(size, p);
      }
    } else {
      var q := (-size) / p;
      assert size - CRem(size, p) == (-q) * p;
      MulIsMultiple(-q, p);
    }
  }

  /** A sixth, truncated toward zero, lies between zero and a third. */
  lemma SixthNearerZero(r: int)
    ensures r >= 0 ==> 0 <= CDiv(r, 6) <= CDiv(r, 3)
    ensures r < 0 ==> CDiv(r, 3) <= CDiv(r, 6) <= 0
  {
    var a := if r >= 0 then r else -r;
    var q := a / 6;
    assert 3 * (2 * q) <= a;
    assert 2 * q <= a / 3;
  }

  /** Rounding to a page never goes above a bound on the size, or above one
      page. */
  lemma RoundedBelow(size: int, bound: int, pageSize: int)
    requires pageSize > 0 && 0 <= size <= bound
    ensures 0 < RoundedToPage(size, pageSize) <= Max(bound, pageSize)
  {
  }

  /** What round_to_page leaves in *size: size rounded toward zero to a
      multiple of the page size, or one page if that is zero. */
  function RoundedToPage(size: int, pageSize: int): (r: int)
    requires pageSize > 0
    ensures r % pageSize == 0 && r != 0
    ensures size >= 0 ==> 0 < r
    ensures 0 <= size < pageSize ==> r == pageSize
    ensures size >= pageSize ==> r <= size < r + pageSize
  {
    TruncatedDown(size, pageSize);
    MulIsMultiple(1, pageSize);
    var down := size - CRem(size, pageSize);
    if down == 0 then pageSize else down
  }

  /** round_to_page(&size) */
  method RoundToPage(size: int, pageSize: int) returns (rounded: int)
    requires pageSize > 0
    ensures rounded == RoundedToPage(size, pageSize)
  {
    rounded := size;
    rounded := rounded - CRem(rounded, pageSize);
    if rounded == 0 {
      rounded := pageSize;
    }
  }

  /** round_up_page: the least multiple of the page size that is at least
      `len`, computed in size_t (so it wraps past MAX_SIZE_T). `pageSize`
      is control->page_size, the only control field the function reads. */
  function RoundUpPage(len: nat, pageSize: nat): (r: nat)
    requires len <= MAX_SIZE_T && 0 < pageSize < 0x8000_0000
    ensures r <= MAX_SIZE_T
    ensures len + pageSize <= MAX_SIZE_T + 1 ==> r % pageSize == 0 && len <= r < len + pageSize
  {
    var rem := len % pageSize;
    if rem != 0 then
      assert len + pageSize - rem == (len / pageSize + 1) * pageSize;
      MulIsMultiple(len / pageSize + 1, pageSize);
      (len + pageSize - rem) % (MAX_SIZE_T + 1)
    else len
  }
}
