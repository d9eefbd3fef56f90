# CryptSharp scrypt, bit packing and traditional DES crypt in Dafny

This project models three parts of the CryptSharp password-hashing library.
It proves what each of them computes.

- **Bit packing** (`BitPacking.dfy`, module `BitPacking`). These are the
  big- and little-endian conversions between bytes and 24-, 32- and 64-bit
  words in `CryptSharp.Internal.BitPacking`.
  - The decoders are functions on `seq<bv8>`.
  - The encoders are methods that write into a caller's `array<bv8>`.
  - Lemmas give each decoder's value and prove that each encoder and its
    decoder are inverses in both directions.
- **scrypt** (`SCryptSpec.dfy` and `SCrypt.dfy`).
  - `SCryptSpec` states scrypt as functions: RFC 7914's BlockMix, ROMix
    (section 5), the lane-by-lane mixing of `MFcrypt`, the byte/word
    conversions, and the argument checks and error results of `MFcrypt`,
    `GetEffectivePbkdf2Salt` and `ComputeDerivedKey`.
  - `SCrypt` is the source's imperative code, over `uint[]` arrays with
    offsets and scratch buffers:
    - `BlockMix` and `SMix`;
    - the worker loop of `ThreadSMixCalls`;
    - `MFcrypt`, with its two conversion loops.
  - Each method is proved to compute the `SCryptSpec` function for its step.
    The whole of `MFcrypt` is proved to compute the spec's effective salt.
  - `WordValue.dfy` gives the unsigned value of a `uint` and the facts about
    `x & (N - 1)` that `SMix` relies on, among them that for a power of two N
    it is x modulo N.
- **Traditional DES crypt** (`TraditionalDesCrypter.dfy`). This covers:
  - the salt format `\A(?<salt>[A-Za-z0-9./]{2})(?<hash>[A-Za-z0-9./]{11})?\z`,
    matched by a hand-written matcher proved equivalent to its plain
    meaning;
  - `CanCrypt` and `FilterSalt`;
  - the retry loop of `GenerateSalt`;
  - the steps of `Crypt` before and after the DES cipher: preparing the
    key, packing the salt value and assembling the result.

`Wrappers.dfy` holds `Option` (a .NET `null` is `None`), `Result`, and the
argument exceptions the source throws, each with its parameter name.

The cryptographic primitives are parameters of the model, not definitions:
- Salsa20/8 is `core`;
- PBKDF2-HMAC-SHA256 is `pbkdf2`, which gives a byte stream;
- DES is `des`;
- the crypt alphabets are `cryptValue`, `cryptString` and `md5String`;
- the random source is `draw`.

The processor count is the parameter `processorCount`.

## Model

| member | source | states |
|---|---|---|
| BitPacking.UInt32FromBEBytesValue | CryptSharp/Internal/BitPacking.cs:5-12 | the big-endian word is the sum of its four bytes, byte k weighing 256^(3-k) |
| BitPacking.UInt32FromBEBytesNat | CryptSharp/Internal/BitPacking.cs:5-12 | read as an unsigned integer, the big-endian word is the base-256 number with byte k weighing 256^(3-k) |
| BitPacking.UInt64FromBEBytesHalves | CryptSharp/Internal/BitPacking.cs:14-25 | the 64-bit big-endian word has the word at offset as its high half and the word at offset+4 as its low half |
| BitPacking.UInt24FromLEBytes | CryptSharp/Internal/BitPacking.cs:27-33 | the 24-bit little-endian word is always below 2^24 |
| BitPacking.UInt24FromLEBytesValue | CryptSharp/Internal/BitPacking.cs:27-33 | the 24-bit word is the sum of three bytes weighted 1, 256 and 65536, for any offset with three bytes after it |
| BitPacking.UInt24IsLow24 | CryptSharp/Internal/BitPacking.cs:27-40 | where four bytes are available, the 24-bit word is the low 24 bits of the 32-bit little-endian word at the same offset |
| BitPacking.UInt24FromLEBytesNat | CryptSharp/Internal/BitPacking.cs:27-33 | read as an unsigned integer, the 24-bit word is b0 + 256 b1 + 65536 b2 |
| BitPacking.UInt32FromLEBytesValue | CryptSharp/Internal/BitPacking.cs:35-40 | the little-endian word is the sum of its four bytes, byte k weighing 256^k |
| BitPacking.UInt32FromLEBytesNat | CryptSharp/Internal/BitPacking.cs:35-40 | read as an unsigned integer, the little-endian word is the base-256 number with byte k weighing 256^k |
| BitPacking.LEIsReversedBE | CryptSharp/Internal/BitPacking.cs:35-40 | little-endian decoding is big-endian decoding of the same four bytes reversed |
| BitPacking.BEBytes32RoundTrip | CryptSharp/Internal/BitPacking.cs:42-48 | decoding the four bytes the 32-bit big-endian encoder writes gives back the value |
| BitPacking.BEBytes64RoundTrip | CryptSharp/Internal/BitPacking.cs:50-60 | decoding the eight bytes the 64-bit encoder writes gives back the value |
| BitPacking.LEBytes24RoundTrip | CryptSharp/Internal/BitPacking.cs:62-67 | decoding the three bytes written gives the low 24 bits of the value, and the value itself exactly when it is below 2^24 |
| BitPacking.LEBytes32RoundTrip | CryptSharp/Internal/BitPacking.cs:69-73 | decoding the four little-endian bytes written gives back the value |
| BitPacking.BEBytes32OfDecoded | CryptSharp/Internal/BitPacking.cs:5-12 | encoding a decoded big-endian word gives back the four bytes it came from |
| BitPacking.BEBytes64OfDecoded | CryptSharp/Internal/BitPacking.cs:14-25 | encoding a decoded 64-bit word gives back its eight bytes |
| BitPacking.LEBytes24OfDecoded | CryptSharp/Internal/BitPacking.cs:27-33 | encoding a decoded 24-bit word gives back its three bytes |
| BitPacking.LEBytes32OfDecoded | CryptSharp/Internal/BitPacking.cs:35-40 | encoding a decoded little-endian word gives back its four bytes |
| BitPacking.BE32Window | CryptSharp/Internal/BitPacking.cs:5-12 | the decoder reads only the four bytes at the offset |
| BitPacking.BE64Window | CryptSharp/Internal/BitPacking.cs:14-25 | the decoder reads only the eight bytes at the offset |
| BitPacking.LE24Window | CryptSharp/Internal/BitPacking.cs:27-33 | the decoder reads only the three bytes at the offset |
| BitPacking.LE32Window | CryptSharp/Internal/BitPacking.cs:35-40 | the decoder reads only the four bytes at the offset |
| BitPacking.BEBytesFromUInt32 | CryptSharp/Internal/BitPacking.cs:42-48 | bytes offset..offset+3 receive the value most significant byte first, the rest of the array is unchanged, and decoding at the offset gives the value |
| BitPacking.BEBytesFromUInt64 | CryptSharp/Internal/BitPacking.cs:50-60 | bytes offset..offset+7 receive the value most significant byte first, the rest is unchanged, and decoding gives the value |
| BitPacking.LEBytesFromUInt24 | CryptSharp/Internal/BitPacking.cs:62-67 | bytes offset..offset+2 receive the low 24 bits least significant byte first, the rest is unchanged, and a value below 2^24 decodes back |
| BitPacking.LEBytesFromUInt32 | CryptSharp/Internal/BitPacking.cs:69-73 | bytes offset..offset+3 receive the value least significant byte first, the rest is unchanged, and decoding gives the value |
| WordValue.MaskedIndexInRange | CryptSharp/Utility/SCrypt.cs:189 | for N != 0 the index x & (N - 1) is below N, so v[j] is inside the table |
| SCryptSpec.BlockMixSubBlocks | CryptSharp/Utility/SCrypt.cs:211-229 | sub-block i of the BlockMix output is the state after absorbing input sub-block 2i, and sub-block r+i the state after sub-block 2i+1, the state being seeded by the last input sub-block |
| SCryptSpec.EvensSubBlock | CryptSharp/Utility/SCrypt.cs:214-218 | the even half that the loop writes at y[m] holds, at sub-block p, the chained state after sub-block 2p |
| SCryptSpec.OddsSubBlock | CryptSharp/Utility/SCrypt.cs:221-223 | the odd half written at y[m + n] holds, at sub-block p, the chained state after sub-block 2p+1 |
| SCryptSpec.TableEntry | CryptSharp/Utility/SCrypt.cs:182-186 | entry t of the table that the fill pass builds is BlockMix applied t times to the lane |
| SCryptSpec.MaskedIndex | CryptSharp/Utility/SCrypt.cs:189 | the table index x[Bs-16] & Nmask read in the mix pass is below N |
| SCryptSpec.Integerify | CryptSharp/Utility/SCrypt.cs:189 | RFC 7914's Integerify(X) mod N, the last 64-byte sub-block read as a little-endian integer modulo N, is below N |
| WordValue.MaskIsMod | CryptSharp/Utility/SCrypt.cs:189 | for a word N of value 2^k, the value of w & (N - 1) is the value of w modulo N |
| SCryptSpec.IntegerifyOfLowWord | CryptSharp/Utility/SCrypt.cs:189 | for a power of two N, Integerify modulo N depends only on the first word of the last sub-block |
| SCryptSpec.MaskedIndexIsIntegerify | CryptSharp/Utility/SCrypt.cs:173-189 | for a power of two N, the masked index x[Bs-16] & (N - 1) is RFC 7914's Integerify(X) mod N |
| SCryptSpec.MixStepIsIntegerify | CryptSharp/Utility/SCrypt.cs:187-191 | for a power of two N, a round of the mix pass is RFC 7914's X := BlockMix(X xor V[Integerify(X) mod N]) |
| SCryptSpec.MixLanesLane | CryptSharp/Utility/SCrypt.cs:155-161 | lane k of the mixed words is ROMix of lane k of the input, whatever the other lanes hold |
| SCryptSpec.MixLanesPrefix | CryptSharp/Utility/SCrypt.cs:155-161 | mixing lanes 0..c in order is mixing lanes 0..c-1 and then lane c in place, with the later lanes untouched |
| SCryptSpec.WordsBytesRoundTrip | CryptSharp/Utility/SCrypt.cs:140-143 | converting words to little-endian bytes and back restores the words |
| SCryptSpec.BytesWordsRoundTrip | CryptSharp/Utility/SCrypt.cs:140-143 | converting a multiple of four bytes to words and back restores the bytes |
| SCryptSpec.WordsToBytesAt | CryptSharp/Utility/SCrypt.cs:143 | bytes 4i..4i+3 of the conversion are the little-endian encoding of word i |
| SCryptSpec.Wrap32 | CryptSharp/Utility/SCrypt.cs:129 | C#'s unchecked int multiplication: the result agrees with the exact product modulo 2^32 and equals it when it fits an int |
| SCryptSpec.UInt | CryptSharp/Utility/SCrypt.cs:160 | the cast (uint)cost keeps a non-negative value and adds 2^32 to a negative one |
| SCryptSpec.Log2 | CryptSharp/Utility/SCrypt.cs:132 | every n that passes the cost check is 2^k for some k |
| SCryptSpec.Pow2IsPositivePowerOf2 | CryptSharp/Utility/SCrypt.cs:132 | every power of two 2^k passes the cost check |
| SCryptSpec.PositivePowerOf2Means | CryptSharp/Utility/SCrypt.cs:132 | the cost check accepts exactly the powers of two |
| SCryptSpec.CheckParameters | CryptSharp/Utility/SCrypt.cs:129-136 | no error exactly when cost is a positive power of 2, blockSize is in 1..MaxValue/128, parallel is in 1..MaxValue/MFLen and maxThreads is null or at least 1; otherwise the first failing check in source order, maxThreads included, names its parameter |
| SCryptSpec.ValidSizesFit | CryptSharp/Utility/SCrypt.cs:135-138 | for sizes that pass the checks, parallel * MFLen does not overflow and is four bytes per word of the parallel lanes |
| SCryptSpec.EffectiveSalt | CryptSharp/Utility/SCrypt.cs:138-146 | the effective salt has parallel * 128 * blockSize bytes |
| SCryptSpec.MFcrypt | CryptSharp/Utility/SCrypt.cs:126-147 | succeeds exactly when the checks pass, and otherwise fails with the error the checks report |
| SCryptSpec.GetEffectivePbkdf2Salt | CryptSharp/Utility/SCrypt.cs:85-90 | a null key fails with ArgumentNull("key"), then a null salt with ArgumentNull("salt"), and otherwise the result is that of MFcrypt |
| SCryptSpec.GetStream | CryptSharp/Utility/SCrypt.cs:118-124 | succeeds exactly when the effective salt B is computed, fails with its error otherwise, and on success is the PBKDF2 stream keyed by the password and salted with B |
| SCryptSpec.ComputeDerivedKey | CryptSharp/Utility/SCrypt.cs:46-56 | a negative length fails with ArgumentOutOfRange("derivedKeyLength"), and a successful key has the requested length |
| SCryptSpec.EffectiveSaltLength | CryptSharp/Utility/SCrypt.cs:138-146 | a successful effective salt is parallel * 128 * blockSize bytes, or parallel * 32 * blockSize words |
| SCryptSpec.MaxThreadsIrrelevant | CryptSharp/Utility/SCrypt.cs:130-142 | any two thread limits that pass their check give the same effective salt |
| SCryptSpec.ConversionIsTransparent | CryptSharp/Utility/SCrypt.cs:138-143 | without the mixing step, the two conversion loops hand back the PBKDF2 bytes unchanged |
| SCryptSpec.DerivedKeyPrefix | CryptSharp/Utility/SCrypt.cs:46-56 | with the same inputs, a shorter derived key is a prefix of a longer one |
| SCryptSpec.DerivedKeyErrors | CryptSharp/Utility/SCrypt.cs:46-56 | a derived key is produced exactly when the length is non-negative, key and salt are present and the parameter checks pass |
| SCryptSpec.ThreadCount | CryptSharp/Utility/SCrypt.cs:164 | the worker count is max(1, min(processorCount, maxThreads, parallel)): one when any of the three is below one, and otherwise the smallest of them (at most each, and equal to one of them) |
| SCrypt.Copy | CryptSharp/Utility/SCrypt.cs:181 | Array.Copy: the destination window receives the old source window and the rest is unchanged, even when source and destination are the same array |
| SCrypt.Compute | CryptSharp/Utility/SCrypt.cs:217 | the output receives Salsa20/8 of the old input |
| SCrypt.XorInto | CryptSharp/Utility/SCrypt.cs:216 | scratch receives x xor the 16 words of B at k |
| SCrypt.Round | CryptSharp/Utility/SCrypt.cs:214-227 | one turn of the loop advances the running state by two sub-blocks and extends both halves of y by one sub-block each |
| SCrypt.Rounds | CryptSharp/Utility/SCrypt.cs:214-227 | after the loop, y holds BlockMix of the input window with the state seeded by x |
| SCrypt.BlockMix | CryptSharp/Utility/SCrypt.cs:201-230 | Bp's window at Bpoffset receives BlockMix of B's window at Boffset, seeded by B's sub-block at (2r-1)*16 from the start of B as the code is written, and the rest of Bp is unchanged |
| SCrypt.BlockMixAtZero | CryptSharp/Utility/SCrypt.cs:212 | at offset 0, the offset every caller passes, the seed at (2r-1)*16 is the last input sub-block, so the method is RFC 7914's BlockMix |
| SCrypt.BlockMixWhole | CryptSharp/Utility/SCrypt.cs:185 | BlockMix(x, 0, x, 0, ...) replaces x by BlockMix of its old value, with input and output the same array |
| SCrypt.XorWith | CryptSharp/Utility/SCrypt.cs:190 | scratchZ receives x xor v[j] |
| SCrypt.FillTable | CryptSharp/Utility/SCrypt.cs:182-186 | v[i] receives BlockMix applied i times to the lane and x ends as BlockMix applied N times |
| SCrypt.MixRound | CryptSharp/Utility/SCrypt.cs:189-191 | one round replaces x by BlockMix(x xor v[x[Bs-16] & Nmask]) |
| SCrypt.MixTable | CryptSharp/Utility/SCrypt.cs:187-192 | after N rounds, x is the mix pass over the table applied N times |
| SCrypt.Passes | CryptSharp/Utility/SCrypt.cs:173-192 | the working block x becomes ROMix of its old contents |
| SCrypt.SMix | CryptSharp/Utility/SCrypt.cs:171-199 | Bp's 32r-word window at Bpoffset receives ROMix of B's window at Boffset, and the rest of Bp is unchanged, also when B and Bp are the same array |
| SCrypt.LaneStart | CryptSharp/Utility/SCrypt.cs:160 | the offset j * MFLen / 4 does not overflow and is the first word of lane j |
| SCrypt.LaneStep | CryptSharp/Utility/SCrypt.cs:155-161 | mixing lane j in place extends the mixed prefix of the lanes by one lane |
| SCrypt.MixLane | CryptSharp/Utility/SCrypt.cs:157-160 | one turn of the worker loop mixes lane j in place, leaving lanes 0..j mixed and the later lanes as they were |
| SCrypt.ThreadSMixCalls | CryptSharp/Utility/SCrypt.cs:149-169 | B0 ends with every lane replaced by ROMix of that lane, with N = (uint)cost, and the worker count is that of line 164 |
| SCrypt.DeriveBytes | CryptSharp/Utility/SCrypt.cs:138 | a new array holding the first `length` bytes of the PBKDF2 stream |
| SCrypt.WordsOf | CryptSharp/Utility/SCrypt.cs:140-141 | a new array of the little-endian words of B, four bytes each |
| SCrypt.StoreWords | CryptSharp/Utility/SCrypt.cs:143 | B receives the little-endian bytes of every word of B0 |
| SCrypt.MixedSalt | CryptSharp/Utility/SCrypt.cs:138-146 | after the checks, the bytes MFcrypt returns are the effective salt: PBKDF2 output mixed lane by lane |
| SCrypt.MFcrypt | CryptSharp/Utility/SCrypt.cs:126-147 | the method returns the MFcrypt function's result: the first failing check's error, or the effective salt |
| SCrypt.GetEffectivePbkdf2Salt | CryptSharp/Utility/SCrypt.cs:85-90 | the method returns the GetEffectivePbkdf2Salt function's result, null checks included |
| SCrypt.ComputeDerivedKey | CryptSharp/Utility/SCrypt.cs:46-56 | the method returns the ComputeDerivedKey function's result: the length check, the errors of the salt, or the first derivedKeyLength bytes of the stream |
| TraditionalDesCrypter.Repeat | CryptSharp/TraditionalDesCrypter.cs:96 | a match of [A-Za-z0-9./]{n} at i fits inside the string |
| TraditionalDesCrypter.RepeatMeans | CryptSharp/TraditionalDesCrypter.cs:96 | [A-Za-z0-9./]{n} matches at i exactly when the next n characters exist and are all in the class |
| TraditionalDesCrypter.MatchSalt | CryptSharp/TraditionalDesCrypter.cs:47 | the salt group of a match is the first two characters |
| TraditionalDesCrypter.MatchSaltMeans | CryptSharp/TraditionalDesCrypter.cs:94-97 | the pattern matches exactly the strings of 2 or 13 characters, all in [A-Za-z0-9./] |
| TraditionalDesCrypter.CanCrypt | CryptSharp/TraditionalDesCrypter.cs:34-39 | a null salt fails with ArgumentNull("salt"), and any other salt gives an answer |
| TraditionalDesCrypter.CanCryptMeans | CryptSharp/TraditionalDesCrypter.cs:34-39 | CanCrypt is true exactly for salts of 2 or 13 class characters, and false exactly for the others |
| TraditionalDesCrypter.FilterSalt | CryptSharp/TraditionalDesCrypter.cs:83-86 | the result is never "..", has the same length, and is the salt itself unless the salt is "..", which becomes "/." |
| TraditionalDesCrypter.FilterSaltIdempotent | CryptSharp/TraditionalDesCrypter.cs:83-86 | filtering twice is filtering once |
| TraditionalDesCrypter.FilterSaltFixedPoints | CryptSharp/TraditionalDesCrypter.cs:83-86 | a salt is left unchanged exactly when it is not ".." |
| TraditionalDesCrypter.FilterSaltKeepsClass | CryptSharp/TraditionalDesCrypter.cs:83-86 | a salt of class characters stays one |
| TraditionalDesCrypter.Candidate | CryptSharp/TraditionalDesCrypter.cs:28 | a candidate salt is two class characters |
| TraditionalDesCrypter.GenerateSalt | CryptSharp/TraditionalDesCrypter.cs:23-31 | null options fail with ArgumentNull("options"); otherwise the salt is the candidate of the first draw that FilterSalt leaves unchanged (every earlier draw rejected), two characters, not "..", and accepted by CanCrypt |
| TraditionalDesCrypter.NullTerminatedLength | CryptSharp/TraditionalDesCrypter.cs:56 | the length is at most maxLength and the buffer length, every byte before it is nonzero, and the byte at it is zero when both bounds leave room |
| TraditionalDesCrypter.ShiftIsDouble | CryptSharp/TraditionalDesCrypter.cs:60 | a byte shifted left by one is doubled modulo 256 |
| TraditionalDesCrypter.PrepareKey | CryptSharp/TraditionalDesCrypter.cs:55-60 | a new 8-byte key: the password bytes before the first zero (at most eight), each shifted left by one, then zeros |
| TraditionalDesCrypter.PreparedKeyUnique | CryptSharp/TraditionalDesCrypter.cs:55-60 | a password determines its prepared key |
| TraditionalDesCrypter.OrDisjoint | CryptSharp/TraditionalDesCrypter.cs:64-65 | OR with a value shifted past every bit of the other operand is addition |
| TraditionalDesCrypter.OrZero | CryptSharp/TraditionalDesCrypter.cs:64 | OR with zero changes nothing |
| TraditionalDesCrypter.SaltValue | CryptSharp/TraditionalDesCrypter.cs:63-65 | two 6-bit values packed into a 12-bit salt, v0 + 64 * v1, with v0 as the low digit and v1 as the high digit |
| TraditionalDesCrypter.Hashed | CryptSharp/TraditionalDesCrypter.cs:71 | the hash begins with the filtered salt |
| TraditionalDesCrypter.Crypt | CryptSharp/TraditionalDesCrypter.cs:42-78 | null password, then null salt, fail with ArgumentNull; a salt CanCrypt rejects fails with Argument("salt"); an accepted salt succeeds with the filtered two salt characters followed by the crypt encoding of 25 DES rounds, keyed by the prepared password and salted by the value of the first salt character plus 64 times that of the second |

## Left out

- Threads: `ThreadSMixCalls` starts `threadCount - 1` threads that share the lane counter through `Interlocked.Increment`, and joins them. The model runs the one worker loop to completion on one thread and only computes `threadCount`. Thread start, join and the interleaving of workers are not modelled. The lanes are disjoint, so the result does not depend on which worker takes which lane.
- `Environment.ProcessorCount` is the parameter `processorCount`.
- Salsa20/8 (`Salsa20Core.Compute`) is the parameter `core`.
- PBKDF2 with HMAC-SHA256 is the parameter `pbkdf2`: a function from password and salt to an infinite byte stream. The `Pbkdf2` object, its read cursor and its disposal are not modelled. `Read(n)` is the first n bytes of the stream.
- DES (`DesCipher`) is the parameter `des`.
- The crypt base-64 alphabets (`Base64Encoding.UnixCrypt`, `Base64Encoding.UnixMD5`) are the parameters `cryptValue`, `cryptString` and `md5String`.
- `Security.GenerateRandomBytes` is the parameter `draw`, its k-th call.
- GenerateSalt: requires that some draw gives a candidate other than "..", the one candidate the loop rejects. Without that, the source's loop need not end.
- `Security.Clear` of the buffers is not modelled, because it changes nothing the code reads afterwards.
- `CrypterOptions`, the `Properties` getter and the `Crypter` base class are not modelled. `options` is only checked for null.
- The .NET `Regex` engine is replaced by a matcher written for this one pattern, `MatchSalt`. `MatchSaltMeans` proves what it accepts.
- `ByteArray.NullTerminatedLength` is not among the available sources. It is modelled from its name and use as the index of the first zero byte, capped at `maxLength` and at the buffer length.
- `SMix` allocates `uint[N][]` as N separate arrays. Here the table is one `array<seq<Word>>` whose entries are copies. The aliasing between the rows and `x` is therefore not modelled.
- Loop counters and array indices are unbounded integers. Two products are reduced modulo 2^32 with `Wrap32`: `MFLen = blockSize * 128`, because it is computed before `blockSize` is checked, and the lane start `j * MFLen` in `LaneStart`, as the source's int multiplication computes it. `parallel * MFLen` is proved not to overflow for parameters that pass the checks (`ValidSizesFit`). `16 * 2 * r` in `SMix` is not wrapped; it cannot overflow, because r = blockSize is at most int.MaxValue / 128.
- `SCrypt.BlockMix`: reproduces line 212 as written. The seed is read at `(2 * r - 1) * 16` from the start of `B`, not from `Boffset`; `BlockMixAtZero` proves that this is RFC 7914's BlockMix at offset 0, the only offset `SMix` passes.
- `GetStream` returns a `Pbkdf2` object. The model returns the byte stream that object reads; its lifetime, its read cursor and the clearing of B are not modelled. The rest of the library is outside this model.
- `BitMath.IsPositivePowerOf2`, `Check.Range`, `Check.Null` and `Exceptions` are not among the available sources. They are modelled from their names and use. `IsPositivePowerOf2(n)` holds when n > 0 and n is a power of two. `Check.Range(name, v, min, max)` fails with `ArgumentOutOfRange(name)` unless min <= v <= max, bounds included. `Check.Null(name, v)` fails with `ArgumentNull(name)` when v is null.
- The BitPacking decoders and encoders require the bytes at the offset to exist. The source does not check offsets: on a short array it throws `IndexOutOfRangeException`, and an encoder may already have written some bytes. Neither the exception nor the partial write is modelled; no caller in the modelled code passes a short array.
- EncodesTwoBytes: `GenerateSalt`'s promises assume that `md5String` (`Base64Encoding.UnixMD5.GetString`) maps two bytes to three characters of the class `[A-Za-z0-9./]`. Without it, `Substring(0, 2)` could throw, and that is not modelled.
- DecodesClass: `Crypt`'s promises assume that `cryptValue` (`Base64Encoding.UnixCrypt.GetValue`) maps the characters of the class into 0..63.
