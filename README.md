# passman core in Dafny

This project models the computational core of `passman.c`, a small command-line password manager. The modelled parts are:

- **SHA-256.** The program's own implementation of the Secure Hash Standard, FIPS 180-4:
  - the `K256` table;
  - `rotr`, `ch`, `maj` and the four sigma functions;
  - the `newlen` search and the padded buffer;
  - the message schedule, the 64 rounds and the `h0..h7 +=` accumulation;
  - the big-endian output loop.
- **`bytes_to_hex`.** Lowercase hex text, high nibble first, with a NUL terminator.
- **`hash_password_hex`.** It builds `tmp = password ++ salt` and hashes it to hex.
- **The master-password paths.** Set, verify and change each compute the raw digest of `password ++ salt`. The verify path compares it with the stored one by `memcmp`.
- **The in-place delete compaction.** `delete_account_interactive` keeps every account whose service does not match the entered key under `strcasecmp`.

The model has two layers. In the pure layer:

- `Sha256Spec` states FIPS 180-4 as functions: pad, then schedule, then compression, then a fold over the blocks. The names are `Pad`, `Schedule`, `Rounds`, `Compress`, `HashBlocks` and `Digest`.
- `HexCodec.Hex` and `HexCodec.HexDecode` state the hex text and its decoding.
- `Accounts.Kept` states the records a deletion keeps.

In the imperative layer, the C code's loops and buffers are methods over arrays, proved against those functions:

- `Sha256.Sha256` writes exactly `Digest(msg)`.
- `HexCodec.BytesToHex` writes `Hex(in)` and a NUL.
- `Accounts.DeleteByService` compacts the array to `Kept(arr, key)`.

Fixed-width C types are bit-vectors: `u8` is `bv8`, `u32` is `bv32` and `u64` is `bv64`. This makes the `u32` additions wrap modulo 2^32 as in C. `msglen * 8ULL` is modelled as the bit length modulo 2^64. A C string is modelled as its bytes up to the first NUL, which is what `strlen`, `memcpy(tmp, password, plen)` and `strcmp` look at. The salt is a parameter: `rand_bytes` is left out.

The change path (`change_master_interactive`) does not refuse an empty new password, unlike the set path (passman.c:185). `Credentials.ChangeMaster` models the code as written.

## Model

| member | source | states |
|---|---|---|
| Sha256Spec.RotRIsRotation | passman.c:23-29 | for each of the ten shift amounts the sigma functions pass, `rotr` is the 32-bit circular right rotation |
| Sha256Spec.Ch | passman.c:24 | each bit of `ch(x,y,z)` is y's bit where x has a 1 and z's bit where x has a 0 |
| Sha256Spec.Maj | passman.c:25 | each bit of `maj(x,y,z)` is the majority of the three input bits |
| Sha256Spec.PaddedLength | passman.c:33-34 | `newlen % 64 == 56`, `msglen+1 <= newlen <= msglen+64`, and `newlen + 8` is a multiple of 64 |
| Sha256Spec.PaddedLengthIsLeast | passman.c:33-34 | no length between `msglen+1` and `newlen` is 56 modulo 64, so `newlen` is the first one the loop reaches |
| Sha256.ComputePaddedLength | passman.c:33-34 | the `while (newlen % 64 != 56) newlen++` loop terminates at the padded length, within its bounds |
| Sha256Spec.PadLayout | passman.c:35-40 | the padded message is the message, then 0x80, then zeros up to `newlen`, then `msglen*8` as a big-endian u64 that reads back as that value |
| Words.BeValueOfBeBytes64 | passman.c:40 | the eight length bytes `(u8)(bitlen >> (56-8i))` read back big-endian give `bitlen` |
| Sha256.WriteLengthField | passman.c:40 | the length loop writes the eight big-endian bytes of `bitlen` at `newlen` and leaves the first `newlen` bytes alone |
| Sha256.PadMessage | passman.c:35-40 | the `calloc`'d buffer after the `memcpy`, the 0x80 byte and the length loop is exactly the padded message |
| Sha256.ChunkCount | passman.c:46 | `chunks * 64 == newlen + 8`: the blocks cover the padded buffer exactly |
| Sha256Spec.Schedule | passman.c:50-54 | schedule words 0..15 are the block's big-endian words and each later word is σ1(w[t-2]) + w[t-7] + σ0(w[t-15]) + w[t-16] modulo 2^32 |
| Sha256Spec.BlockWordBytes | passman.c:51 | schedule word t of a block serialises back to bytes 4t..4t+3 of the block |
| Words.WordBytesOfBeWord | passman.c:51 | assembling four bytes into a word, most significant first, loses nothing |
| Sha256.BlockWordOfBytes | passman.c:51 | the word the first loop builds from `chunk[t*4..t*4+3]` is schedule word t |
| Sha256.LoadBlockWords | passman.c:50-52 | after the first loop, `w[0..15]` are the first sixteen schedule words |
| Sha256.ExtendSchedule | passman.c:53-54 | after the second loop, all of `w` is the block's message schedule |
| Sha256.FillSchedule | passman.c:49-54 | `w[0..63]` is the message schedule of the chunk at `buf + i*64` |
| Sha256.RoundShifts | passman.c:58-60 | one iteration's T1, T2 and variable shifts are one FIPS 180-4 round |
| Sha256.RunRounds | passman.c:56-61 | after the 64 iterations, `a..hh` are the FIPS 180-4 rounds applied to `h0..h7` with schedule `w` |
| Sha256.CompressWords | passman.c:62 | adding `a..hh` into `h0..h7` modulo 2^32 is the compression of the block |
| Sha256.NextHash | passman.c:56-62 | the rounds and the additions of block i take the hash value of the first i blocks to that of the first i+1 |
| Sha256.CompressBlock | passman.c:48-62 | one iteration of the block loop takes the hash value of i blocks to that of i+1 |
| Sha256.CompressBlocks | passman.c:43-63 | starting from the section 5.3.3 constants, the block loop computes the fold of the compression over the blocks |
| Sha256.FinalHashIs | passman.c:46-47 | folding over the `chunks` blocks of the padded buffer gives the final hash value of the message |
| Sha256.StoreWord | passman.c:68-71 | the four stores of one output word write its big-endian bytes and nothing else |
| Sha256.StoreDigest | passman.c:66-72 | the output loop writes `H[0..7]` big-endian into `out32` |
| Sha256Spec.DigestLayout | passman.c:66-72 | the digest is exactly 32 bytes, bytes 4i..4i+3 are H_i big-endian, and the eight words read back from it |
| Words.DeserializeSerialize | passman.c:66-72 | the big-endian serialisation of words can be read back: it loses nothing |
| Sha256.Sha256 | passman.c:31-73 | `sha256(msg, msglen, out32)` writes exactly the FIPS 180-4 digest of `msg` |
| HexCodec.NibbleDigits | passman.c:79-80 | `(x >> 4) & 0xF` and `x & 0xF` are x div 16 and x mod 16, the high and low base-16 digits of x |
| HexCodec.PairChars | passman.c:77-80 | the two table lookups for a byte give its high digit and then its low digit, in lowercase |
| HexCodec.StorePair | passman.c:79-80 | one loop step writes the byte's two digits at `2i` and `2i+1` and nothing else |
| HexCodec.Hex | passman.c:76-83 | the hex text has exactly 2·inlen characters, all in `0-9a-f` |
| HexCodec.HexAt | passman.c:79-80 | characters 2i and 2i+1 of the text are `hex[(in[i] >> 4) & 0xF]` and `hex[in[i] & 0xF]` |
| HexCodec.BytesToHex | passman.c:76-83 | `out_hex` holds the 2·inlen digits followed by NUL at index 2·inlen; the rest of the buffer is untouched |
| HexCodec.HexDecodeHex | passman.c:76-83 | decoding the hex text gives the original bytes back |
| HexCodec.HexOfHexDecode | passman.c:76-83 | text that decodes is exactly the encoding of its bytes, so each byte string has one spelling |
| Credentials.CStringLength | passman.c:93 | `strlen`: no NUL before the returned index, and a NUL at it when it is inside the buffer |
| Credentials.CStringLengthOfTerminated | passman.c:93 | bytes after the first NUL never reach the hashed input |
| Memory.CopyInto | passman.c:97-98 | `memcpy(dst + off, src, n)` changes exactly bytes off..off+n-1, to `src` |
| Credentials.BuildSaltedInput | passman.c:93-98 | `tmp` is the password's bytes followed by the salt |
| Credentials.SaltedInputInjective | passman.c:93-98 | with a fixed salt length, the hashed input determines both the password and the salt |
| Credentials.HashPasswordHex | passman.c:92-103 | `out_hex65` is the hex of sha256(password ++ salt) followed by NUL |
| Credentials.HexDigestDecodes | passman.c:99-101 | the stored hex is 64 characters that decode to the raw salted digest |
| Credentials.SaltedRawDigest | passman.c:195-199 | the raw-digest path writes sha256(password ++ salt) into the 32-byte digest |
| Credentials.RecordFor | passman.c:191-201 | the record saved for a password holds the salt and a 32-byte digest that the password opens |
| Credentials.SetMaster | passman.c:180-199 | the set path refuses exactly an empty password or two different entries, and otherwise yields the salted digest record |
| Memory.Memcmp | passman.c:222 | `memcmp(a, b, n)` is zero exactly when the first n bytes agree; otherwise it is the difference at the first differing byte |
| Credentials.SameDigest | passman.c:222 | the 32-byte `memcmp` is zero exactly when the two digests are equal |
| Credentials.VerifyMaster | passman.c:211-223 | verification succeeds exactly when the salted digest of the entered password equals the stored digest |
| Credentials.SetThenVerify | passman.c:195-222 | the password a record was set with, or any buffer holding the same C string, passes verification |
| Credentials.ChangeMaster | passman.c:308-321 | the change path refuses exactly a wrong current password or two different new entries, and otherwise yields the record for the new password and salt |
| Accounts.LowerChar | passman.c:296 | the C locale's case folding changes only 'A'..'Z', each to its lowercase letter |
| Accounts.DeleteByService | passman.c:293-301 | the compaction leaves the kept records in order at the front, keeps the slots from `write_idx` on unchanged, sets `write_idx` to n minus the matches, and sets `deleted` exactly when some record matched |
| Accounts.KeptLength | passman.c:293-301 | every record is either kept or counted as a match |
| Accounts.KeptMembers | passman.c:293-301 | a record is kept exactly when it was in the array and its service does not match |
| Accounts.KeptAppend | passman.c:293-301 | the filter is stable: keeping from a concatenation keeps from each part, in order |
| Accounts.KeptNoMatch | passman.c:293-301 | when nothing matches, nothing is removed |
| Accounts.CountMatchesPositive | passman.c:293-302 | there is a match exactly when the match count is positive |
| Accounts.KeptIdempotent | passman.c:293-301 | deleting the same key again removes nothing more |
| Accounts.FoldedKeyMatchesAlike | passman.c:296 | `strcasecmp` folding: a key and its lowercase form match the same records |

## Left out

- File persistence is not modelled: `master_exists`, `save_master`, `load_master`, `save_accounts` and `load_accounts` (passman.c:122-176). It is `fopen`/`fread`/`fwrite` over the C struct layout. The master record is a value `Credentials.MasterRecord`, passed in and returned.
- The interactive layer is not modelled: prompts, `fgets` with newline stripping, `printf`, `show_menu` and `main`. The entered passwords and keys are parameters. The save after a deletion (passman.c:302-305) is not modelled.
- The listing and search loops (passman.c:257-285) only print and are not modelled.
- `rand_bytes`, `srand` and `time` are not modelled. They are a libc pseudo-random generator, so the salt is a parameter of the methods that need one.
- Allocation failures are not modelled. The model assumes `calloc` in `sha256` (passman.c:36) and `malloc` in `hash_password_hex` (passman.c:96) and the master paths always succeed. Dafny's `new` cannot fail.
- `size_t` overflow of `newlen`, `plen + salt_len` and `i*64` is not modelled, because lengths are unbounded naturals. `msglen * 8ULL` does wrap modulo 2^64.
- The truncation of `service` and `username` to their fixed-size fields (passman.c:106-116) is not modelled. The account fields are unbounded sequences.
- The known-answer vectors for "" and "abc" are not proved. Evaluating 64 rounds is too heavy for the verifier. The model is proved equal to the FIPS 180-4 definition instead.
- Collision resistance of SHA-256 cannot be stated. Verification is therefore shown equivalent to digest equality, not to password equality.
- Sha256Spec.BigSigma0, Sha256Spec.BigSigma1, Sha256Spec.SmallSigma0 and Sha256Spec.SmallSigma1 have no contract of their own. They are the section 4.1.2 formulas over `RotR`, and `RotRIsRotation` proves that `RotR` rotates at each of their amounts.
- Memory.Memcmp: libc only promises the sign of a nonzero result. The model returns the byte difference at the first mismatch, which is one allowed implementation. The program tests only for zero.
- Accounts.LowerChar: `strcasecmp` is modelled in the C locale, so only ASCII letters fold. The account arrays hold the C strings' contents, without their NUL padding.
