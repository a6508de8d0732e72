# A verified model of the totp engine

This project models the engine of `totp`, a small C program that prints
time-based one-time passwords (RFC 6238). Its pipeline has five stages:

- The Base32 secret is decoded into key bytes (`b32toa`, RFC 4648 section 6).
- The time-step counter is encoded as 8 big-endian bytes.
- The counter is authenticated with HMAC-SHA1 (`hmac_sha1`, RFC 2104 section 2).
- SHA-1 is computed by a streaming engine (`sha1init`, `sha1hash`, `sha1end`) and the portable block compression `sha1hashblk` (FIPS 180-4 sections 5.1.1, 5.3.1 and 6.1.2).
- The 20-byte MAC is reduced to a decimal code by dynamic truncation and a power of ten (RFC 4226 section 5.3).

Each C file becomes one Dafny module, in the form the C code takes:

| file | module | form |
|---|---|---|
| `endian.dfy` | `Endian` | Bytes and words (`bv8`, `bv32`). The big-endian encodings that the code reaches through `htobe32`/`htobe64` and `memcpy`, with their round trips. |
| `seqs.dfy` | `Seqs` | Generic sequence facts used by the proofs. |
| `base32.dfy` | `Base32` | `b32.c`. The `ctov` table as a literal sequence, and an independent value map `Value` it is proved equal to: RFC 4648 section 6 for the alphabet, 0 for `=`. A functional decoder `Decode` with its inverse `Encode`. The imperative `B32ToA`, which writes into a `dst` array group by group, proved against `Decode`. |
| `sha1_generic.dfy` | `Sha1Generic` | `src/sha1-generic.c`. The FIPS 180-4 textbook schedule and rounds as functions. The imperative `HashBlock`, which fills a `w[80]` array with the source's `rotl2` shortcut for words 32–79, runs the 80 rounds and adds into `dgst`. It is proved to compute the textbook compression. |
| `sha1.dfy` | `Sha1` | `src/sha1.c`. The class `Context` stands for `sha1_t`: chaining words `dgst`, bit counter `msgsz`, block buffer `buf` and fill count `bufsz`. `Init`, `Hash` and `End` are methods that update these fields in place. They are proved against the functional `Chain`, `Pad` and `Digest`. |
| `hmac.dfy` | `Hmac` | `src/hmac.c`. `KeyBlock`, `XorPad` and `Mac` state RFC 2104. `HmacSha1` fills the `keyext`, `keyipad` and `keyopad` arrays and drives one `Context` through the inner and the outer hash. |
| `totp.dfy` | `Totp` | The arithmetic of `process` in `src/main.c`. `Process` runs the `=`-stripping loop, `keysz`, the decoder, the counter, dynamic truncation, the `pow32` loop and the modulus `binc % pow32(10, digits)`, and `Totp` is the function it is proved to compute. `xisdigit`, which only the option parser calls, is modelled on its own. |

Some inputs of the C code are parameters of the model, because nothing in the core computes them:

- the clock reading (`time(NULL)`) is the `epoch` parameter;
- the command-line settings `digits` and `period` are parameters too.

The `err`/`errx` exits of the C code become `false` results or error outcomes.

Three behaviours of the code differ from what RFC 4648 and RFC 4226 lead a reader to expect. The model does what the code does:

- **`=` anywhere in the secret.** RFC 4648 section 6 uses `=` only as padding at the end of the last group. The `ctov` table maps `=` to 0 (`b32.c:9`), so the test for 255 at `b32.c:40` never fires on `=` and the branch at `b32.c:41-42` is unreachable. An `=` anywhere is read as five zero bits, the same as `A` (`Base32.PadDecodesAsA`).
- **Lower-case letters.** The table maps lower-case letters to 255 (`b32.c:5-22`), so `b32toa` rejects them (`Base32.CtovNoValue`).
- **The digit count.** Nothing bounds `digits` from above. `process` reduces by `pow32(10, digits)`, which wraps modulo 2^32 (`src/main.c:160`, `166-176`). From 10 digits on, the printed value can differ from the RFC 4226 section 5.3 code `binc mod 10^digits`: it differs exactly when `binc >= pow32(10, digits)` (`Totp.CodeAsWrittenDiffers`), which some `binc` below 2^31 reaches only when the wrapped power is below 2^31. From 32 digits on, the divisor is 0. `Totp.Sign` follows the code and yields `DivideByZero` for a zero divisor. `Totp.SignIntended` proves that up to 9 digits the result is the RFC 4226 code (see Findings).

## Model

| member | source | states |
|---|---|---|
| Endian.WordBytes | src/sha1.c:73-74 | `htobe32` followed by `memcpy` gives 4 bytes, most significant first. `WordBytesBe` and `BeWordBytes` make it and `BeWord` inverse. |
| Endian.BeWord | src/sha1-generic.c:21-22 | The word `htobe32` loads from 4 bytes, the first most significant. Its partner is `WordBytes`. |
| Endian.WordBytesBe | src/sha1.c:73-74 | Reading back the 4 big-endian bytes of a word gives the word. |
| Endian.BeWordBytes | src/sha1-generic.c:21-22 | Encoding the big-endian word read from 4 bytes gives the same 4 bytes. |
| Endian.BeBytes | src/sha1.c:66-67 | The `k` low-order bytes of a value, most significant first, are `k` bytes: the 8-byte bit length of `sha1end` and the counter at `src/main.c:151`. `BeBytesValue` reads them back. |
| Endian.BeBytesValue | src/sha1.c:66-67 | A value below 256^k survives the k-byte big-endian encoding: reading the bytes back gives it. |
| Base32.CtovValue | b32.c:5-22 | Each of the 256 table entries equals `Value` of its character, the RFC 4648 section 6 value for the alphabet and 0 for `=`. `A`–`Z` give 0–25, `2`–`7` give 26–31, `=` gives 0, and every other byte gives 255. |
| Base32.AlphabetValue | b32.c:9-11 | The v-th character of the RFC 4648 alphabet has value v, for every v < 32. |
| Base32.ValueAlphabet | b32.c:9-11 | A character with a value, other than `=`, is the alphabet character at that value. |
| Base32.PadIsZero | b32.c:9 | The table maps `=` to 0. |
| Base32.CtovNoValue | b32.c:5-22 | An entry is 255 exactly when the byte is neither an alphabet character nor `=`. Lower-case letters therefore give 255. |
| Base32.Unpack | b32.c:49-53 | Splitting 5 bytes into 8 groups of 5 bits gives values below 32. This is the inverse of the stores. |
| Base32.PackUnpack | b32.c:49-53 | The five stores reassemble any 5 bytes from their 8 five-bit groups. |
| Base32.UnpackPack | b32.c:49-53 | Eight values below 32 are recovered from the 5 bytes the stores make of them, so packing loses nothing. |
| Base32.Pack | b32.c:49-53 | The five stores of one group make 5 bytes. `PackIsConcatenation` says which, and `PackUnpack`/`UnpackPack` say it loses nothing. |
| Base32.Group40 | b32.c:49-53 | The 40-bit number made of eight 5-bit values side by side, the first in the top 5 bits: the reference for `PackIsConcatenation`. |
| Base32.PackIsConcatenation | b32.c:49-53 | For eight values below 32, the five stores write the 40-bit number made of the values side by side, the first in the top 5 bits, as 5 big-endian bytes. |
| Base32.Decode | b32.c:36-54 | Decoding yields exactly 5 bytes per 8-character group. |
| Base32.DecodeAppend | b32.c:36-54 | One more group appends exactly its 5 packed bytes to the output. |
| Base32.DecodeGroupAt | b32.c:36-53 | Group k (characters 8k..8k+7) determines exactly output bytes 5k..5k+4, as the packing of its table values. |
| Base32.DecodePrefix | b32.c:36-54 | Decoding the first g groups gives the first 5g output bytes. |
| Base32.DecodeValues | b32.c:38-39 | Two inputs with the same table values decode to the same bytes. |
| Base32.PadDecodesAsA | b32.c:38-42 | Replacing an `=` anywhere by `A` does not change the decoded bytes. |
| Base32.DecodeEncode | b32.c:24-57 | Decoding the RFC 4648 encoding of any whole number of 5-byte groups gives the bytes back. |
| Base32.EncodeDecode | b32.c:24-57 | Re-encoding the bytes decoded from alphabet characters gives the characters back. |
| Base32.EncodeAlphabet | b32.c:9-11 | An encoding uses alphabet characters only. |
| Base32.EncodeAccepted | b32.c:31-47 | Every RFC 4648 encoding is accepted by the decoder. |
| Base32.TrailingPad | b32.c:31-34 | The number of trailing `=`: all of them are `=`, and the character before them is not. |
| Base32.FirstInvalid | b32.c:38-45 | The position of the first byte whose table value is 255. Every byte before it has a value. |
| Base32.B32ToA | b32.c:24-57 | `b32toa` succeeds exactly when there are at most 6 trailing `=` and every character has a table value. Either way, `dst` holds the decoding of the completed groups at `[0, 5g)` and is unchanged beyond. On success g is every group, so exactly `len/8*5` bytes are written. With more than 6 `=` nothing is written. |
| Base32.CountPad | b32.c:31-34 | The pad loop stops after 7 `=` and reports more than 6 exactly when there are more than 6. Otherwise it reports their number. |
| Base32.DecodeGroups | b32.c:36-56 | The group loop writes the decoding of every group before the first invalid character, and nothing past it. It succeeds when no group has an invalid character. |
| Base32.DecodeGroup | b32.c:37-53 | One pass of the group loop. A valid group extends the decoded prefix by 5 bytes. An invalid one ends decoding at this group and leaves `dst` unchanged. |
| Base32.ReadGroup | b32.c:37-47 | The inner loop succeeds exactly when the 8 characters all have table values, and then `vs` holds those values. |
| Base32.WriteGroup | b32.c:49-53 | The five stores write the packing of `vs` at `dst[o..o+5)` and nothing else. |
| Base32.StoreGroup | b32.c:49-53 | Storing group g extends the decoded prefix from `5g` to `5g+5` bytes and leaves the rest of `dst`. |
| Base32.StopsAt | b32.c:40-45 | An invalid character in group g, with all earlier characters valid, means that exactly g groups complete and the input is rejected. |
| Base32.RunsThrough | b32.c:36-56 | With at most 6 `=` and every character valid, all groups complete and the input is accepted. |
| Base32.GroupOffset | b32.c:49 | The output offset `i*5/8` of the group at `i = 8g` is `5g`. |
| Sha1Generic.Rotl32 | src/sha1-generic.c:76 | The portable `rotl32` expression `(x << bits) OR (x >> (32 - bits))`, for `0 < bits < 32`. `RotlInvertible` proves it is a rotation. |
| Sha1Generic.RotlInvertible | src/sha1-generic.c:76 | The C expression, `x << n` OR-ed with `x >> (32-n)`, is a rotation: rotating back by n gives x, so no bit is lost. |
| Sha1Generic.ChOr | src/sha1-generic.c:38 | The code's OR of `b&c` and `~b&d` is the FIPS 180-4 Ch function. |
| Sha1Generic.MajOr | src/sha1-generic.c:44 | The code's OR of `b&c`, `b&d` and `c&d` is the FIPS 180-4 Maj function. |
| Sha1Generic.KAt | src/sha1-generic.c:37-49 | Round t uses the constant K[t/20] of the table at lines 8-13. |
| Sha1Generic.RangeCh | src/sha1-generic.c:37-39 | Rounds 0–19 use the choose function. |
| Sha1Generic.RangeParity | src/sha1-generic.c:40-48 | Rounds 20–39 and 60–79 use parity. |
| Sha1Generic.RangeMaj | src/sha1-generic.c:43-45 | Rounds 40–59 use majority. |
| Sha1Generic.MessageWords | src/sha1-generic.c:21-22 | There are 16 message words, and writing word i back big-endian gives block bytes 4i..4i+3. |
| Sha1Generic.WordsLoaded | src/sha1-generic.c:21-22 | Each big-endian load of 4 block bytes writes back to the same 4 bytes. |
| Sha1Generic.Extend | src/sha1-generic.c:23-24 | From word 16 on, the schedule follows the textbook recurrence `rotl1(w[t-3]^w[t-8]^w[t-14]^w[t-16])`. |
| Sha1Generic.ScheduleWords | src/sha1-generic.c:21-24 | The textbook schedule starts with the message words and obeys the `rotl1` recurrence at every t in 16..79. |
| Sha1Generic.Shortcut | src/sha1-generic.c:25-26 | Any word sequence obeying the `rotl1` recurrence at t, t-3, t-8, t-14 and t-16 satisfies `w[t] == rotl2(w[t-6]^w[t-16]^w[t-28]^w[t-32])` at t. |
| Sha1Generic.ScheduleShortcut | src/sha1-generic.c:25-26 | The textbook schedule satisfies the source's `rotl2` recurrence for every t in 32..79. |
| Sha1Generic.ExpandSchedule | src/sha1-generic.c:18-26 | The three loops fill `w[80]` with exactly the textbook schedule, although words 32–79 use the `rotl2` shortcut. |
| Sha1Generic.LoadWords | src/sha1-generic.c:21-22 | The first loop stores the 16 big-endian message words. |
| Sha1Generic.ExtendRotl1 | src/sha1-generic.c:23-24 | The second loop stores schedule words 16–31 and keeps 0–15. |
| Sha1Generic.ExtendRotl2 | src/sha1-generic.c:25-26 | The third loop stores schedule words 32–79 and keeps 0–31. |
| Sha1Generic.RunRounds | src/sha1-generic.c:34-57 | The 80 rounds, each `(a,b,c,d,e) := (rotl5(a)+f+e+w[t]+k, a, rotl30(b), c, d)` modulo 2^32, give the textbook working variables. |
| Sha1Generic.Step | src/sha1-generic.c:51-56 | One round: `tmp = rotl5(a)+f+e+w[t]+k` modulo 2^32, then the rotation of the working variables, with `rotl30(b)` into `c`. `RunRounds` is proved to compute 80 of them. |
| Sha1Generic.Compress | src/sha1-generic.c:15-64 | The FIPS 180-4 compression gives 5 new chaining words. `HashBlock` is proved to compute it in place. |
| Sha1Generic.AddVars | src/sha1-generic.c:59-63 | Each chaining word gets its working variable added modulo 2^32. |
| Sha1Generic.HashBlock | src/sha1-generic.c:15-64 | `sha1hashblk` replaces the chaining words by the FIPS 180-4 compression of the block. Nothing else changes. |
| Sha1.Chain | src/sha1.c:37-49 | Folding the compression over the whole 64-byte blocks of the data, in order, gives 5 chaining words. `ChainBlock` and `ChainAppend` state how it steps. |
| Sha1.ChainBlock | src/sha1.c:45-48 | Feeding one more whole block compresses the chaining words once more. |
| Sha1.ChainAppend | src/sha1.c:37-49 | Streaming equivalence: chaining over a ++ b (a whole blocks) is chaining over b from the words reached after a. |
| Sha1.PadZeros | src/sha1.c:55-65 | The number of zero bytes is below 64 and makes the message, `0x80`, the zeros and the 8-byte length a whole number of blocks. |
| Sha1.Pad | src/sha1.c:55-67 | The padded message is whole blocks and adds between 9 and 72 bytes. |
| Sha1.PadShape | src/sha1.c:55-67 | The padded message is the message, `0x80`, zero bytes, and the bit length as 8 big-endian bytes. |
| Sha1.PadOneBlock | src/sha1.c:55-67 | With fewer than 56 bytes buffered, the padding completes the current block. |
| Sha1.PadTwoBlocks | src/sha1.c:55-67 | With 56 or more bytes buffered, the padding fills the current block with zeros and adds a block of zeros and the length. |
| Sha1.Serialize | src/sha1.c:71-75 | The big-endian bytes of the chaining words, one word after the other, are 4 bytes per word. |
| Sha1.SerializeMessageWords | src/sha1-generic.c:21-22 | Serialising the 16 message words of a block gives the block back: the load of `sha1hashblk` and the store of `sha1end` are inverse. |
| Sha1.SerializeWord | src/sha1.c:71-75 | Digest bytes 4i..4i+3 are chaining word i, big-endian. |
| Sha1.SerializeStep | src/sha1.c:71-75 | Serialising one more word appends its 4 big-endian bytes. |
| Sha1.Digest | src/sha1.c:52-76 | The SHA-1 digest of a message with fewer than 2^64 bits is 20 bytes. |
| Sha1.Context.constructor | src/sha1.h:10-15 | A `sha1_t` owns a 5-word chaining array and a 64-byte buffer of its own. |
| Sha1.Context.Init | src/sha1.c:13-25 | `sha1init` sets the chaining words to 67452301, EFCDAB89, 98BADCFE, 10325476, C3D2E1F0 and zeroes the bit counter and the fill count. The context holds the empty message. |
| Sha1.Context.Hash | src/sha1.c:27-50 | With the corrected overflow test of Findings, `sha1hash` fails exactly when the bit counter would reach 2^64, and then nothing changes. Otherwise the counter grows by `8*msgsz`. The chaining words are the compression folded over every whole block fed since `Init`, `buf[0..bufsz)` holds the remainder, and `bufsz < 64`. |
| Sha1.Context.Feed | src/sha1.c:37-49 | The copy-and-compress loop appends the chunk to the bytes fed and keeps the chaining words and the buffer consistent with them. |
| Sha1.Context.Absorb | src/sha1.c:38-48 | One `memcpy` pass appends the chunk to the buffer. A buffer that becomes full is compressed and emptied. |
| Sha1.Context.HashBuffer | src/sha1.c:46 | Compressing the full buffer advances the chaining words over it. |
| Sha1.Context.End | src/sha1.c:52-76 | `sha1end` writes the SHA-1 digest of everything fed since `Init` to `out[0..20)` and nothing else of `out`. The chaining words end as the chain over the padded message. |
| Sha1.Context.PadFinal | src/sha1.c:55-67 | After the `0x80`, the zeros and the length field, the compressed prefix and the buffer together are the padded message. |
| Sha1.Context.PadTwo | src/sha1.c:57-62 | When more than 56 bytes are in use, the buffer is zero-filled and compressed, and the padding goes on in a fresh block. |
| Sha1.Context.FlushFirst | src/sha1.c:58-61 | The zero-filled buffer is compressed and emptied. |
| Sha1.Context.PadLast | src/sha1.c:64-67 | The buffer is zero-filled to 56 bytes and the 8 length bytes are stored at 56..63. |
| Sha1.Context.ZeroTo | src/sha1.c:58-65 | The zero loop appends zeros up to the limit and leaves the bytes beyond it. |
| Sha1.Context.WriteDigest | src/sha1.c:71-75 | The serialisation loop writes the five chaining words big-endian to `out[0..20)`. |
| Sha1.Copy | src/sha1.c:40 | `memcpy` places the source at the offset and leaves every other byte. |
| Sha1.OverflowAsWritten | src/sha1.c:30 | The overflow test computes both `msgsz*8` and the sum modulo 2^64. When it fires, the counter really would overflow. |
| Sha1.OverflowExact | src/sha1.c:30-33 | For chunks under 2^61 bytes, the test fires exactly when the new counter would reach 2^64. |
| Sha1.OverflowMissed | src/sha1.c:30-35 | A chunk of 2^61 bytes overflows the counter, yet the test lets it through. |
| Hmac.KeyBlock | src/hmac.c:13-23 | The normalised key is always 64 bytes. |
| Hmac.ShortKeyBlock | src/hmac.c:13-23 | A key of at most 64 bytes (64 included) is used as it is, not hashed, followed by zero bytes. |
| Hmac.LongKeyBlock | src/hmac.c:13-21 | A key longer than 64 bytes becomes its 20-byte SHA-1 followed by 44 zero bytes. |
| Hmac.LongKeyIsDigest | src/hmac.c:17-21 | A long key and its digest give the same MAC. |
| Hmac.ZeroExtendedKey | src/hmac.c:13-23 | Appending a zero byte to a key shorter than 64 bytes does not change the MAC. |
| Hmac.XorPad | src/hmac.c:25-28 | XORing a block byte by byte with a pad byte keeps its length. `XorPadTwice` and `PadsDiffer` are its partners. |
| Hmac.XorPadTwice | src/hmac.c:25-28 | XOR with a pad byte is undone by repeating it, so the pad blocks determine the key block. |
| Hmac.PadsDiffer | src/hmac.c:25-28 | With the pad bytes of lines 5-6, the outer pad block is the inner one XORed with `0x36 ^ 0x5C`, so the two always differ. |
| Hmac.Mac | src/hmac.c:30-40 | `SHA1(keyopad ++ SHA1(keyipad ++ msg))` is 20 bytes. |
| Hmac.HmacSha1 | src/hmac.c:8-41 | `hmac_sha1` writes the RFC 2104 HMAC-SHA1 of `msg` under `key` to `out[0..20)` and nothing else of `out`. With the corrected overflow test of `sha1hash` (see Findings), it fails, leaving `out` unchanged, exactly when a hash input would reach 2^64 bits. |
| Hmac.ExtendKey | src/hmac.c:13-23 | The zeroed `keyext` becomes the normalised key block. |
| Hmac.HashKey | src/hmac.c:17-21 | A long key's digest goes into `keyext[0..20)`, and the 44 bytes beyond keep their value. |
| Hmac.XorBlocks | src/hmac.c:25-28 | For every i < 64, `keyipad[i] = keyext[i] ^ 0x36` and `keyopad[i] = keyext[i] ^ 0x5C`. |
| Hmac.Inner | src/hmac.c:30-35 | The inner hash is the SHA-1 of the inner pad block followed by the message. |
| Hmac.Outer | src/hmac.c:37-40 | The outer hash writes the SHA-1 of the outer pad block followed by the inner digest to `out[0..20)`. |
| Totp.Stripped | src/main.c:131-132 | The stripped length leaves only `=` after it, and the character before it is not `=`. |
| Totp.StrippedEmpty | src/main.c:131-134 | Nothing remains after stripping exactly when the input is all `=`. |
| Totp.StripPadding | src/main.c:131-132 | The loop stops at the stripped length. |
| Totp.KeySize | src/main.c:139 | `n*5/8` is the number of whole bytes in 5n bits. It is `n/8*5` when n is a multiple of 8. |
| Totp.Counter | src/main.c:151 | The HMAC message is 8 bytes whose big-endian value is `epoch / period`. |
| Totp.Offset | src/main.c:155 | The offset `dgst[19] & 0x0F` is at most 15, so the four bytes read end at index 18 at most. |
| Totp.Truncate | src/main.c:155-159 | `binc` is below 2^31. Its big-endian bytes are the four digest bytes at the offset, the first with its top bit cleared. |
| Totp.TopClear | src/main.c:156 | A word whose first byte is below 0x80 is below 2^31. |
| Totp.Pow32 | src/main.c:166-176 | `pow32(x, y)` is `x^y` modulo 2^32. That gives 1 for y = 0. |
| Totp.Pow32Exact | src/main.c:166-176 | For at most 9 digits, `pow32(10, d)` is exactly `10^d`. |
| Totp.Code | src/main.c:160 | The code is below `10^digits`, and a truncated value below `10^digits` is its own code. |
| Totp.CodeBound | src/main.c:160 | With 1–9 digits the code is below 10^9. |
| Totp.CodeAsWritten | src/main.c:160-176 | `binc % pow32(10, digits)`: a division by zero exactly when `10^digits` is a multiple of 2^32. Otherwise the result is below the wrapped power. |
| Totp.CodeAsWrittenAgrees | src/main.c:160 | With at most 9 digits, the modulus as written is the intended code. |
| Totp.CodeAsWrittenDiffers | src/main.c:160-176 | From 10 digits on, with a non-zero wrapped divisor and `binc < 2^31`, the modulus as written gives the RFC 4226 code exactly when `binc < pow32(10, digits)`. |
| Totp.CodeAsWrittenWrong | src/main.c:160-176 | With 10 digits, `pow32` gives 1410065408, and `binc = 1500000000` prints 89934592 instead of 1500000000. |
| Totp.CodeAsWrittenDividesByZero | src/main.c:160-176 | From 32 digits on, `pow32(10, digits)` is 0 and the modulus divides by zero. |
| Totp.IsDigit | src/main.c:178-182 | `xisdigit` holds exactly for the ten characters `0`–`9`. |
| Totp.Totp | src/main.c:127-164 | The result is `EmptyInput` exactly when the secret is all `=`. A printed value is below `10^digits`. |
| Totp.TotpInvalid | src/main.c:131-146 | A secret with something left after stripping is rejected exactly when a character before the stripped end has no table value. |
| Totp.StrippedAccepted | src/main.c:131-145 | The stripped secret ends in a character other than `=`, so the decoder's pad count is 0 and only the alphabet decides. |
| Totp.Sign | src/main.c:151-160 | The HMAC step fails exactly when the hash input would be too long. Otherwise it divides by zero exactly when `pow32(10, digits)` is 0, and else prints a value below `pow32(10, digits)`. |
| Totp.SignIntended | src/main.c:151-160 | With at most 9 digits, the value printed is the RFC 4226 code `binc mod 10^digits`. |
| Totp.SignDividesByZero | src/main.c:151-176 | With 32 digits or more, every key and counter that can be hashed ends in the division by zero. |
| Totp.Process | src/main.c:127-164 | `process` strips the padding, decodes the key, MACs the counter, truncates and reduces by `pow32(10, digits)`. The result is exactly `Totp`. |
| Totp.DecodeKey | src/main.c:139-146 | A `keysz`-byte buffer is filled by the decoder. It succeeds exactly when the stripped secret is accepted, and then holds its decoding. |
| Totp.Authenticate | src/main.c:152-160 | The MAC of the counter is truncated, `pow32(10, digits)` is computed by its loop, and `binc` is reduced modulo it. The result is exactly `Sign`. |

## Left out

- **SIMD backends.** `src/sha1-x64.c` and `src/sha1-arm64.c` are built from compiler intrinsics whose meaning is not in the repository. Only the portable `sha1hashblk` is modelled.
- **`rotl32` assembly.** The inline-assembly branches at `src/sha1-generic.c:69-74` are platform assembly. Only the C expression at line 76 is modelled.
- **Build and legacy code.** `make.c` (build tooling) and the older top-level `main.c` (OpenSSL, uriparser, clock and stdin) are not part of this model.
- **I/O and the command line.** `main`, `usage`, `process_stdin`, option parsing and `printf`'s zero-padded formatting are I/O. The clock (`time(NULL)`) is the `epoch` parameter. `digits` and `period` are parameters: `period > 0` is required, which the option parser ensures.
- **`bigendian`.** It is unused. `src/common.h` and `src/xendian.h` hold platform macros: `htobe32`/`htobe64` are modelled as explicit big-endian encodings.
- **The key buffer.** The static key buffer with its `malloc` fallback (`src/main.c:136-143`, `162-163`) is memory management. The model uses a fresh array of `keysz` bytes.
- **Error exits.** `err` and `errx` end the process. In the model they are a `false` result (`Sha1.Context.Hash`, `Hmac.HmacSha1`) or an error `Outcome` (`Totp.Process`). The division by zero at `src/main.c:160` is the outcome `DivideByZero`.
- **Integer widths.** Byte counts are unbounded naturals: `size_t` is taken to be 64 bits. The SHA-1 bit counter is bounded by 2^64, as its `uint64_t` is.
- **The decoder `src/main.c` actually calls.** `src/main.c` calls the `b32toa` of `src/base32.h`, and `src/base32.c` is not part of this model. The model uses the decoder of `b32.c` in its place.
- Base32.B32ToA: requires `len % 8 == 0` and `len >= 8`. For other lengths `b32toa` reads `src[len-1]` or a whole group past `len` (`b32.c:31`, `36-39`), which is outside the input it is given.
- Totp.Process: requires the stripped length to be a multiple of 8. `process` passes the stripped length to the decoder (`src/main.c:145`), and the `b32.c` decoder only handles whole groups. A padded secret whose last group is incomplete is therefore outside the model.
- Sha1.Context.Hash: uses the corrected overflow test, failing exactly when the new bit counter would reach 2^64. The test as written at `src/sha1.c:30` lets chunks of 2^61 bytes or more through, because `msgsz * 8` wraps (`Sha1.OverflowMissed`).
- Sha1Generic.Rotl32: requires `0 < bits < 32`. The C expression shifts by 32 for `bits == 0`, which C leaves undefined, and every call uses 1, 2, 5 or 30.

## Findings

Each finding has both halves in the model. `Totp.Process` follows `src/main.c:160` as written, and `Totp.SignIntended` proves that it agrees with the corrected `Totp.Code` up to 9 digits. `Sha1.Context.Hash` uses the corrected overflow test, and `Sha1.OverflowAsWritten` models the test as written.

| source | as written | input that shows it | evidently intended | confidence | as-written member | corrected member |
|---|---|---|---|---|---|---|
| src/main.c:160-176 | `binc % pow32(10, digits)` with `pow32` multiplying in a `uint32_t`, so the divisor is `10^digits mod 2^32` | `digits = 10`: the divisor is 1410065408, and `binc = 1500000000` prints 89934592. `digits >= 32`: the divisor is 0, a division by zero | the code `binc mod 10^digits` (or a rejected digit count) | not executed; follows from the arithmetic | Totp.CodeAsWrittenWrong | Totp.Code |
| src/sha1.c:30-35 | `s->msgsz + (msgsz * 8) < s->msgsz`, where the product `msgsz * 8` itself wraps modulo 2^64 | a fresh context fed `msgsz = 2^61` bytes: the product is 0, the test passes, and the bit counter wraps to its old value | reject any chunk whose bit count does not fit the 64-bit counter | not executed; needs a 2^61-byte input | Sha1.OverflowMissed | Sha1.Context.Hash |
