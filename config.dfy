/** The pure parts of read_config worth stating: the parameter-name match,
    the dictionary-size setting and the `encrypt` setting. */
module Config {
  import opened Bytes

  datatype Option<T> = None | Some(value: T)

  const MAX_DICT_SIZE: int := 0xFFFF_FFFF

  // ---------------------------------------------------------------------
  // isparameter: strcasecmp(a, b) == 0 in the C locale

  function ToLower(c: char): (l: char)
    ensures 'A' <= c <= 'Z' ==> l as int == c as int + 32
    ensures !('A' <= c <= 'Z') ==> l == c
  {
    if 'A' <= c <= 'Z' then (c as int + 32) as char else c
  }

  /** strcasecmp's walk: compare lowered characters until a difference or
      the end of both strings. */
  function IsParameter(a: string, b: string): (r: bool)
    ensures r ==> |a| == |b|
    ensures a == b ==> r
  {
    if |a| == 0 || |b| == 0 then |a| == |b|
    else ToLower(a[0]) == ToLower(b[0]) && IsParameter(a[1..], b[1..])
  }

  /** Two characters lower to the same one exactly when they are equal or
      one is the capital of the other. */
  lemma SameLowered(c: char, d: char)
    ensures ToLower(c) == ToLower(d) <==>
      c == d
      || ('A' <= c <= 'Z' && d as int == c as int + 32)
      || ('A' <= d <= 'Z' && c as int == d as int + 32)
  {
  }

  /** The walk accepts exactly the strings of equal length that agree at
      every position once lowered. */
  lemma {:induction false} IsParameterIff(a: string, b: string)
    ensures IsParameter(a, b) <==>
      |a| == |b| && forall i :: 0 <= i < |a| ==> ToLower(a[i]) == ToLower(b[i])
  {
    if |a| > 0 && |b| > 0 {
      IsParameterIff(a[1..], b[1..]);
      if IsParameter(a, b) {
        forall i | 0 <= i < |a|
          ensures ToLower(a[i]) == ToLower(b[i])
        {
          if i > 0 {
            assert a[1..][i - 1] == a[i] && b[1..][i - 1] == b[i];
          }
        }
      } else if |a| == |b| && ToLower(a[0]) == ToLower(b[0]) {
        var i :| 0 <= i < |a| - 1 && ToLower(a[1..][i]) != ToLower(b[1..][i]);
        assert ToLower(a[i + 1]) != ToLower(b[i + 1]);
      }
    }
  }

  // ---------------------------------------------------------------------
  // dictionarysize

  /** The `dictionarysize` line with atoi's value `p`: an error outside
      0..40, otherwise the LZMA2 dictionary size the setting encodes,
      (2 | (p & 1)) << (p / 2 + 11), or 0xFFFFFFFF for 40. */
  function DictSizeSetting(p: int): (r: Option<int>)
    ensures r.Some? <==> 0 <= p <= 40
  {
    if p < 0 || p > 40 then None
    else if p == 40 then Some(MAX_DICT_SIZE)
    else Some((2 + p % 2) * Pow2(p / 2 + 11))
  }

  /** Every accepted setting fits the u32 dictSize field and is at least
      4 KiB. */
  lemma DictSizeRange(p: int)
    requires 0 <= p <= 40
    ensures 4096 <= DictSizeSetting(p).value <= MAX_DICT_SIZE
  {
    if p < 40 {
      var x := Pow2(p / 2 + 11);
      Pow2Monotone(11, p / 2 + 11);
      Pow2Monotone(p / 2 + 11, 30);
      Pow2Of11And30();
      assert 2048 <= x <= 0x4000_0000;
      if p % 2 == 0 {
        assert DictSizeSetting(p).value == 2 * x;
      } else {
        assert DictSizeSetting(p).value == 3 * x;
      }
    }
  }

  /** Larger settings give strictly larger dictionaries. */
  lemma DictSizeStrictlyIncreasing(p: int, q: int)
    requires 0 <= p < q <= 40
    ensures DictSizeSetting(p).value < DictSizeSetting(q).value
  {
    var x := Pow2(p / 2 + 11);
    assert DictSizeSetting(p).value <= 3 * x by {
      if p % 2 == 0 {
        assert DictSizeSetting(p).value == 2 * x;
      } else {
        assert DictSizeSetting(p).value == 3 * x;
      }
    }
    if q == 40 {
      Pow2Monotone(p / 2 + 11, 30);
      Pow2Of11And30();
    } else if p / 2 == q / 2 {
      assert p % 2 == 0 && q % 2 == 1;
      assert DictSizeSetting(p).value == 2 * x;
      assert DictSizeSetting(q).value == 3 * x;
    } else {
      var y := Pow2(q / 2 + 11);
      assert Pow2(p / 2 + 12) == 2 * x;
      Pow2Monotone(p / 2 + 12, q / 2 + 11);
      assert 4 * x <= 2 * y;
      if q % 2 == 0 {
        assert DictSizeSetting(q).value == 2 * y;
      } else {
        assert DictSizeSetting(q).value == 3 * y;
      }
    }
  }

  lemma Pow2Of11And30()
    ensures Pow2(11) == 2048 && Pow2(30) == 0x4000_0000
  {
    assert Pow2(11) == 2048;
    assert Pow2(20) == 2048 * 512;
  }

  // ---------------------------------------------------------------------
  // encrypt

  /** The `encrypt` line as written: the second test compares the parameter
      name, not its value, with "YES". Returns FLAG_ENCRYPT afterwards. */
  function EncryptFlagAsWritten(parameter: string, value: string, encrypt: bool): (r: bool)
    ensures encrypt ==> r
    ensures r ==> encrypt || IsParameter(parameter, "encrypt")
  {
    if IsParameter(parameter, "encrypt") then
      (if IsParameter(parameter, "YES") then true else encrypt)
    else encrypt
  }

  /** As written, no configuration line ever sets FLAG_ENCRYPT, not even
      `encrypt = YES`. */
  lemma EncryptNeverSet(parameter: string, value: string, encrypt: bool)
    ensures EncryptFlagAsWritten(parameter, value, encrypt) == encrypt
  {
    IsParameterIff(parameter, "encrypt");
    IsParameterIff(parameter, "YES");
  }

  lemma EncryptYesIgnored()
    ensures !EncryptFlagAsWritten("encrypt", "YES", false)
  {
    EncryptNeverSet("encrypt", "YES", false);
  }

  /** The `encrypt` line as the other yes/no settings are written: the value
      is compared with "YES". */
  function EncryptFlag(parameter: string, value: string, encrypt: bool): (r: bool)
    ensures encrypt ==> r
    ensures r ==> encrypt || IsParameter(parameter, "encrypt")
  {
    if IsParameter(parameter, "encrypt") && IsParameter(value, "YES") then true else encrypt
  }

  /** `encrypt = yes`, in any letter case, sets FLAG_ENCRYPT; any other line
      leaves it as it was. */
  lemma EncryptFlagSet(parameter: string, value: string, encrypt: bool)
    ensures EncryptFlag(parameter, value, encrypt) <==>
      encrypt || (IsParameter(parameter, "encrypt") && |value| == 3
                  && ToLower(value[0]) == 'y' && ToLower(value[1]) == 'e' && ToLower(value[2]) == 's')
  {
    IsParameterIff(value, "YES");
    assert ToLower('Y') == 'y' && ToLower('E') == 'e' && ToLower('S') == 's';
  }
}
