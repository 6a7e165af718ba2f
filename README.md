# lrzip-next utilities: block encryption framing and sizing arithmetic

This project models the core of `src/util.c` from lrzip-next, together with
proofs about that model.

**Encryption layer**

- `lrz_keygen` derives a per-block AES key and IV with SHA-512:
  - key = SHA-512(hash ‖ salt ‖ passphrase)
  - iv = SHA-512(key ‖ salt ‖ passphrase)
- `lrz_crypt` transforms a buffer in place:
  - It runs AES-128-CBC over the whole blocks.
  - A trailing fragment of M = len mod 16 bytes is handled by hand-written ciphertext stealing. It uses the `tmp0`/`tmp1` scratch blocks, `xor128` and an extra ECB handle when decrypting.
  - It zeroes the derived key and IV on every return.
- `lrz_stretch` feeds the counter-and-passphrase records into a SHA-512 handle.
- `decrypt_header` packs a block header's four fields into the 25 bytes after the block's salt, decrypts them in place and unpacks them.

**Sizing routines**

- `setup_overhead` picks the LZMA dictionary size, or the ZPAQ level and block size, and computes the per-thread memory overhead.
- `setup_ram` works out `maxram` and `usable_ram`.
- `round_to_page` and `round_up_page` round sizes to pages.
- The pure `dictionarysize` and `encrypt` settings of `read_config`.

**How the code is modelled**

- AES-128 and SHA-512 are uninterpreted. They are function values in `Primitives.Library`.
- The one fact about AES that any proof uses is `Aes.Inverts()`: decrypt(k, encrypt(k, b)) == b. It is a precondition of the round-trip lemmas only.
- libgcrypt handles are classes (`Gcrypt.CipherHandle`, `Gcrypt.MdHandle`) whose methods update the key, the CBC chaining value, or the bytes written so far.
- Every libgcrypt call that the source checks may fail. Failure is modelled as a nondeterministic choice, and the `goto error` exits become a labelled block left by `break`.
- The buffers are arrays, and every `memcpy`/`memset` is a method call on them.
- Each method is proved against a specification function:
  - `Crypt.LrzEncrypt` and `Crypt.LrzDecrypt` give the bytes `lrz_crypt` produces.
  - `Cbc.Encrypt` and `Cbc.Decrypt` are CBC as in section 6.2 of NIST SP 800-38A.
  - `Stretch.StretchStream` gives the bytes `lrz_stretch` hashes.
  - `Control.RoundedToPage` gives the result of `round_to_page`.
- The specification functions have their own properties proved:
  - The round trip of the encryption framing.
  - The encrypting framing equals CBC-CS2, from the ciphertext-stealing addendum to NIST SP 800-38A. The independent reference definition is `Cbc.Cs2Encrypt`.
  - Bounds and monotonicity of the size tables.
  - Page alignment.

**Constants**

`lrzip_private.h` and `util.h` are not part of this model. Their constants are taken as:

- CBC_LEN = 16, written as the literal 16.
- HASH_LEN = 64.
- SALT_LEN = 16.
- PASS_LEN = 512. It only bounds `salt_pass_len`.
- one_g = 1000 · 1024 · 1024.

`lrz_decrypt`, used by `decrypt_header`, is taken to be `lrz_crypt` run with the caller's `LRZ_DECRYPT` or `LRZ_VALIDATE`.

## Model

| member | source | states |
|---|---|---|
| Crypt.DerivedKeysDiffer | src/util.c:425-441 | for the same hash and passphrase, two different salts make both rounds hash different inputs, so equal keys, or equal IVs, exhibit a SHA-512 collision on two distinct inputs |
| Crypt.LrzKeygen | src/util.c:418-446 | key = SHA-512(hash ‖ salt ‖ pass) and iv = SHA-512(key ‖ salt ‖ pass), all 64 bytes of each; the scratch buffer is all zero on return |
| Crypt.HashRound | src/util.c:425-432 | after the three memcpy calls into the scratch buffer, writing its first HASH_LEN + SALT_LEN + salt_pass_len bytes to a reset handle and reading the digest gives SHA-512 of first ‖ salt ‖ pass |
| Crypt.Xor128 | src/util.c:409-416 | the first block becomes the bytewise xor of the two blocks; the second is unchanged |
| Crypt.LrzEncrypt | src/util.c:482-497 | the length of the buffer is preserved |
| Crypt.LrzDecrypt | src/util.c:497-529 | the length of the buffer is preserved |
| Crypt.Transform | src/util.c:482-529 | encrypting and decrypting (or validating) both preserve the length |
| Crypt.Crypt | src/util.c:475-478 | the cipher is keyed with the first 16 bytes of the derived key and of the derived IV, and the length is preserved |
| Crypt.WholeBlocks | src/util.c:482-528 | when len is a multiple of 16 (M = 0), the framing is plain CBC in both directions |
| Crypt.EncryptTail | src/util.c:485-496 | when M ≠ 0, the output is C_1 .. C_(k-1), then T = CBC of the zero-padded tail chained on C_k, then C_k[0..M) |
| Crypt.EncryptSplit | src/util.c:488-496 | the same layout, with T expressed as the encryption of the padded tail under the last whole ciphertext block C_k |
| Crypt.DecryptTail | src/util.c:500-522 | when M ≠ 0, the output is the CBC decryption of C_1 .. C_(k-2), then the CBC decryption of C_k rebuilt from the fragment and X = ECB⁻¹(T) xor Pad(fragment), then X[0..M) |
| Crypt.DecryptPieces | src/util.c:508-522 | the same decryption, for a ciphertext given as whole blocks ‖ T ‖ fragment |
| Crypt.StolenXor | src/util.c:514-518 | X = (Pad(tail) xor C_k) xor Pad(C_k[0..M)) holds the tail in its first M bytes and the stolen bytes of C_k after them |
| Crypt.UnstealBlock | src/util.c:511-518 | decrypting T by ECB and xoring with the padded fragment recovers the plaintext tail and completes C_k |
| Crypt.UnstealAfter | src/util.c:500-522 | after whole blocks B, decrypting B ‖ T ‖ C_k[0..M) gives the CBC decryption of B ‖ C_k followed by the tail |
| Crypt.BodyRoundTrip | src/util.c:485-519 | the whole-block CBC ciphertext, cut before its last block and joined again, decrypts to the whole plaintext blocks |
| Crypt.StolenRoundTrip | src/util.c:488-522 | for a length with M ≠ 0, decrypting the encrypted buffer gives the plaintext back, given only that AES decryption inverts encryption |
| Crypt.LrzRoundTrip | src/util.c:482-528 | for every length that is a multiple of 16 or at least 16, decrypting the encrypted buffer gives the plaintext back |
| Crypt.CryptRoundTrip | src/util.c:448-539 | under the same salt, hash and passphrase, decrypting or validating what lrz_crypt encrypted gives back the plaintext |
| Crypt.LrzEncryptIsCs2 | src/util.c:482-497 | for inputs of at least one block, lrz_crypt's encryption is byte for byte CBC-CS2 as defined independently in Cbc.Cs2Encrypt |
| Crypt.Cs2Tail | src/util.c:488-496 | CBC-CS2 with a fragment of M bytes gives C_1 .. C_(k-1), T, C_k[0..M): the layout lrz_crypt writes |
| Crypt.Cs2Unfold | src/util.c:489-491 | CS2's padded input is the whole blocks followed by the zero-padded fragment in tmp0 |
| Crypt.PadSplit | src/util.c:489-490 | zero-padding the whole input equals the whole blocks followed by the zero-padded tail |
| Crypt.BlockSplit | src/util.c:462-463 | N = len - M is a multiple of 16, M < 16, and N ≥ 16 when len ≥ 16 |
| Crypt.EncryptLayout | src/util.c:485-495 | the three in-place writes (CBC body at 0, C_k[0..M) copied to N, T written at N - 16) leave body[..N-16] ‖ T ‖ C_k[0..M) in the range |
| Crypt.StolenPieces | src/util.c:490-494 | after the whole blocks are written, buf + N still holds the plaintext tail and buf + N - 16 holds the first M bytes of C_k |
| Crypt.EncryptAssemble | src/util.c:485-496 | the buffer after the encrypting branch's writes equals the range replaced by LrzEncrypt of the original range |
| Crypt.EncryptInPlace | src/util.c:482-497 | on success the range holds LrzEncrypt of its old contents under the handle's key and old IV; bytes outside the range never change |
| Crypt.EncryptTailInPlace | src/util.c:488-496 | after the whole blocks, the stolen-block writes bring the buffer to the range replaced by LrzEncrypt; on failure the buffer is untouched |
| Crypt.EncryptStolen | src/util.c:489-495 | T = CBC of the padded tail on the handle's current chaining value; C_k[0..M) is copied to N and T to N - 16; a failing encrypt changes nothing |
| Crypt.PadInto | src/util.c:489-490 | memset then memcpy of M bytes leaves the zero-padded fragment in the scratch block |
| Crypt.DecryptInPlace | src/util.c:497-529 | on success the range holds LrzDecrypt of its old contents; bytes outside the range never change |
| Crypt.DecryptTailInPlace | src/util.c:500-522 | when M ≠ 0, on success the range holds LrzDecrypt of the original range; bytes outside it never change |
| Crypt.DecryptTailed | src/util.c:500-522 | opens and keys the ECB handle, decrypts C_1 .. C_(k-2) by CBC, then writes X[0..M) at N and the CBC decryption of the rebuilt C_k at N - 16 |
| Crypt.DecryptHead | src/util.c:508-510 | CBC-decrypts the first N - 16 bytes in place and advances the chaining value; T and the fragment after them stay put |
| Crypt.DecryptLayout | src/util.c:508-519 | the three in-place writes leave head ‖ last ‖ X[0..M) in the range |
| Crypt.DecryptAssemble | src/util.c:500-522 | the buffer after the decrypting branch's writes equals the range replaced by LrzDecrypt of the original range |
| Crypt.DecryptStolen | src/util.c:511-521 | X[0..M) is written at N, and the CBC decryption of the fragment ‖ X[M..16) (the rebuilt C_k) is written at N - 16 |
| Crypt.RecoverTail | src/util.c:511-516 | tmp0 = ECB⁻¹(T) xor Pad(fragment) and tmp1 = Pad(fragment) |
| Crypt.PadThenCopy | src/util.c:518 | copying X[M..16) over the zero-padded fragment gives fragment ‖ X[M..16) |
| Crypt.CryptRange | src/util.c:472-529 | opens a CBC handle, sets the key and the IV; on success the range holds Transform of its old contents in the given direction; bytes outside it never change |
| Crypt.LrzCrypt | src/util.c:448-539 | on success buf[at..at+len) is Crypt(...) of its old contents under the salt's derived key and IV; the rest of the buffer never changes; key and iv are all zero on every return, failures included |
| Cbc.Encrypt | src/util.c:485 | CBC encryption preserves the length |
| Cbc.Decrypt | src/util.c:525 | CBC decryption preserves the length |
| Cbc.EcbDecrypt | src/util.c:511 | ECB decryption preserves the length |
| Cbc.OneBlock | src/util.c:491 | on one block, CBC is a single cipher call on the block xored with the chaining value, which then becomes the chaining value; ECB decryption is one inverse call |
| Cbc.RoundTrip | src/util.c:485-527 | CBC decryption inverts CBC encryption under the same key and IV |
| Cbc.EncryptAppend | src/util.c:485-491 | two encrypt calls on one handle (the chaining value carried over) equal one call on the concatenation |
| Cbc.DecryptAppend | src/util.c:508-519 | two decrypt calls on one handle equal one call on the concatenation |
| Cbc.ChainStep | src/util.c:485-491 | the chaining value after a run of blocks is the one after the blocks past the first, started from the first |
| Cbc.Cs2Encrypt | src/util.c:482-497 | the reference CBC-CS2 encryption preserves the length |
| Gcrypt.CipherHandle.SetKey | src/util.c:475-477 | on success the key is the given 16 bytes; on failure it is unchanged; the IV is untouched |
| Gcrypt.CipherHandle.SetIv | src/util.c:478 | on success the chaining value is the given IV; on failure it is unchanged; the key is untouched |
| Gcrypt.CipherHandle.Encrypt | src/util.c:485-491 | on success writes the CBC encryption under the current chaining value and advances it to the last ciphertext block; on failure nothing changes |
| Gcrypt.CipherHandle.Decrypt | src/util.c:508-527 | on success writes the CBC (or ECB) decryption and, in CBC mode, advances the chaining value to the last input block; on failure nothing changes |
| Gcrypt.CipherOpen | src/util.c:472-474 | a fresh handle for AES in the requested mode |
| Gcrypt.MdHandle.Write | src/util.c:431-440 | appends the data to what the handle has hashed |
| Gcrypt.MdHandle.Read | src/util.c:432-441 | the digest is SHA-512 of everything written since open or reset |
| Gcrypt.MdHandle.Reset | src/util.c:434 | the handle has hashed nothing |
| Bytes.Memcpy | src/util.c:494-495 | memcpy overwrites exactly the destination range with the source bytes |
| Bytes.Memzero | src/util.c:534-535 | memset to 0 makes every byte zero |
| Bytes.LeValueOfLeBytes | src/util.c:551 | reading back the little-endian encoding of a value that fits gives the value |
| Bytes.LeBytesOfLeValue | src/util.c:551 | encoding the value of a little-endian byte string gives the string back |
| Bytes.I64OfBytes | src/util.c:566-576 | copying an i64 into 8 bytes and back gives the same i64 |
| Bytes.I64BytesOf | src/util.c:566-576 | copying 8 bytes into an i64 and back gives the same bytes |
| Bytes.CDiv | src/util.c:173-175 | C division truncates toward zero: for a ≥ 0 the quotient times b is at most a and within b of it, for a < 0 it is at least a and within b of it |
| Bytes.CRem | src/util.c:194-201 | C remainder: a = q·b + r, with 0 ≤ r < b for a ≥ 0 and -b < r ≤ 0 for a < 0 |
| Stretch.StretchCount | src/util.c:548 | the record count fits in 64 bits |
| Stretch.StretchCountValue | src/util.c:548 | for a budget whose product does not wrap, n = encloops·64 / (salt_pass_len + 8); in every case the records fit in a 64-bit byte count |
| Stretch.StretchStream | src/util.c:550-554 | the bytes written by n iterations are a whole number of (salt_pass_len + 8)-byte records, and are empty exactly when no iteration ran |
| Stretch.Record | src/util.c:551-553 | a record is 8 counter bytes followed by the passphrase |
| Stretch.LrzStretch | src/util.c:541-555 | the hash handle has been fed exactly records 0 .. n-1, in increasing order of the counter, and nothing else |
| Stretch.StreamStep | src/util.c:550-554 | one iteration appends le64(j) ‖ pass to the stream of the first j records |
| Stretch.StreamLength | src/util.c:550-554 | n records are n·(salt_pass_len + 8) bytes |
| Stretch.StreamPrefix | src/util.c:550-554 | the stream of the first i records is a prefix of the stream of the first n records |
| Stretch.RecordAt | src/util.c:550-554 | record j lies at offset j·(salt_pass_len + 8) of the stream |
| Header.Pack | src/util.c:565-568 | the packed header is 25 bytes |
| Header.PackFields | src/util.c:565-568 | c_type at byte 0, and c_len, u_len and last_head as 8 bytes each at 1, 9 and 17 |
| Header.UnpackPack | src/util.c:565-576 | unpacking the packed fields gives the fields back |
| Header.PackUnpack | src/util.c:565-576 | packing the unpacked bytes gives the bytes back |
| Header.HeaderRoundTrip | src/util.c:560-578 | fields packed and encrypted under a salt come back unchanged after decrypt_header's decryption or validation |
| Header.DecryptHeader | src/util.c:560-578 | the salt bytes and everything after the 25-byte region never change; on success the caller's fields are the unpacked decryption of the packed stored fields; on failure they are unchanged |
| Header.PackHeader | src/util.c:565-568 | the four memcpy calls write the packed fields over the 25-byte region |
| Header.UnpackHeader | src/util.c:573-576 | the four memcpy calls read the fields back from the region |
| Header.PackInPlace | src/util.c:565-568 | the four separate writes at 0, 1, 9 and 17 equal one write of the packed fields |
| Control.Control.SetupOverhead | src/util.c:114-167 | under LZMA, a zero dictSize becomes the level's default and overhead = dictSize·23/2 + 6 MiB + 16384; under ZPAQ, a zero zpaq_bs sets zpaq_level and zpaq_bs from the level and overhead = 2^zpaq_bs MiB; with neither compressor nothing changes |
| Control.LzmaDefaultDictSize | src/util.c:119-138 | the default dictionary size lies between 64 KiB and 128 MiB |
| Control.LzmaDefaultDictSizeMonotone | src/util.c:121-137 | a higher level 1..9 never gets a smaller default dictionary |
| Control.ZpaqDefaultLevel | src/util.c:144 | levels 0..9 give ZPAQ levels 3..5 only |
| Control.ZpaqDefaultBlockSize | src/util.c:145-161 | the default block size is 2^6 .. 2^11 MiB; level 5 falls to the default of 6 |
| Control.ZpaqDefaultBlockSizeMonotone | src/util.c:145-161 | a higher level 1..9 never gets a smaller block size |
| Control.ZpaqDefaultOverhead | src/util.c:163 | with a default block size, a ZPAQ thread needs 64 MiB to 2 GiB |
| Control.RamShare | src/util.c:172-175 | the starting share, a sixth or a third by C division, lies between zero and a third of the RAM size, on the same side of zero as the RAM size |
| Control.Control.SetupRam | src/util.c:169-190 | usable_ram is the capped RAM size on 32-bit systems and the share otherwise; maxram is the share (a sixth or a third), capped on 32-bit systems, rounded to a page |
| Control.SetupRamBounds | src/util.c:169-190 | maxram is a non-zero multiple of the page size, at most a third of the RAM (or one page), and on 32-bit systems at most two thirds of one_g (or one page) |
| Control.RoundedToPage | src/util.c:192-197 | the result is a non-zero multiple of the page size; a size below one page becomes one page; a size of at least one page rounds down to within one page |
| Control.RoundToPage | src/util.c:192-197 | the method computes RoundedToPage |
| Control.RoundedBelow | src/util.c:189-197 | rounding a size that is within a bound gives a positive value no greater than the bound or one page |
| Control.TruncatedDown | src/util.c:194 | size - size % PAGE_SIZE is a multiple of the page size; for a non-negative size it lies within one page below the size |
| Control.RoundUpPage | src/util.c:199-206 | the result fits in size_t; when no wrap-around occurs it is the least multiple of the page size that is at least len, so it is below len + page_size |
| Config.SameLowered | src/util.c:62 | two characters compare equal under strcasecmp exactly when they are equal or one is the capital of the other |
| Config.IsParameter | src/util.c:62 | isparameter only matches strings of equal length, and every string matches itself |
| Config.IsParameterIff | src/util.c:62 | isparameter holds exactly when the strings have equal length and agree at every position once lowered |
| Config.DictSizeSetting | src/util.c:383-389 | a setting is accepted exactly when it lies in 0..40 |
| Config.DictSizeRange | src/util.c:386-388 | every accepted setting gives a dictionary size between 4 KiB and 0xFFFFFFFF |
| Config.DictSizeStrictlyIncreasing | src/util.c:388 | a larger setting gives a strictly larger dictionary |
| Config.EncryptFlagAsWritten | src/util.c:379-382 | as written, the `encrypt` line can only set FLAG_ENCRYPT, never clear it, and a line for another parameter leaves it alone |
| Config.EncryptFlag | src/util.c:379-382 | corrected: the line likewise only sets FLAG_ENCRYPT, and only for the `encrypt` parameter |
| Config.EncryptNeverSet | src/util.c:379-382 | as written, no parameter/value pair changes FLAG_ENCRYPT |
| Config.EncryptYesIgnored | src/util.c:379-382 | as written, `encrypt = YES` leaves FLAG_ENCRYPT clear |
| Config.EncryptFlagSet | src/util.c:379-382 | corrected: FLAG_ENCRYPT ends up set exactly when it was set already or the line is `encrypt` with the value yes, in any letter case |

## Left out

- AES-128 and SHA-512 internals are left out. They are uninterpreted functions, and AES's inverse property is a precondition of the round-trip lemmas.
- `gcry_cipher_close` and `gcry_md_close` have no observable effect in the model, so they are left out.
- The ECB handle that the decrypting branch leaks on its error paths is not tracked.
- `mlock` and `munlock` are operating-system memory pinning, so they are left out. Zeroing the key, IV and scratch buffers is modelled.
- `get_rand` is `/dev/urandom` I/O and `random()`, so it is left out.
- `fatal_exit` and `unlink_files` handle the terminal, file deletion and process exit, so they are left out.
- The `register_*` setters are plain field stores, so they are left out.
- The rest of `read_config` is left out: file search, `fgets`, `strtok`, `atoi`, allocation and the other settings. Only the `dictionarysize` formula, the `encrypt` line and `isparameter` are modelled.
- Logging (`print_maxverbose`, `print_err`, and the message text of `failure_goto`) is left out.
- The digest of `lrz_stretch` is left out: the function never reads or closes its hash handle. `Stretch.LrzStretch` returns the handle as a ghost value, so it can state what was written.
- The byte order of `i64` fields copied by `memcpy` is little-endian, as on the hosts lrzip-next runs on. `htole64` is modelled as little-endian encoding.
- Crypt.LrzCrypt: `len` is limited to 0..INT_MAX and, when it is not a multiple of 16, to at least 16. The source stores `M` and `N` in `int`, and it indexes `buf + N - CBC_LEN` when M ≠ 0.
- Crypt.LrzCrypt: `lrz_decrypt` is defined in `util.h`, which is not part of this model. It is taken to be `lrz_crypt` with the caller's direction.
- Control.Control.SetupOverhead: a preset `zpaq_bs` outside 1..30 is excluded by its requires, because `1 << zpaq_bs` overflows an `int` there.
- Control.RoundUpPage: page sizes of 2^31 or more are excluded, because `int rem` would truncate the remainder.
- Config.DictSizeSetting: for settings 38 and 39 the `int` shift overflows in C. The model gives the unsigned value the comment at src/util.c:388 says is meant: 2^31 and 3·2^30.

## Findings

| source | as written | input that shows it | evidently intended | confidence | as-written member | corrected member |
|---|---|---|---|---|---|---|
| src/util.c:379-382 | the `encrypt` line tests `isparameter(parameter, "YES")`, comparing the parameter name (already known to be `encrypt`) with YES, so the flag is never set | the configuration line `encrypt = YES` leaves FLAG_ENCRYPT clear | compare the value: `isparameter(parametervalue, "YES")`, like the other yes/no settings | high; not executed | Config.EncryptNeverSet | Config.EncryptFlagSet |
