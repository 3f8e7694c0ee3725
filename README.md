# bigint-utils in Dafny

bigint-utils converts JavaScript `bigint` values to and from byte arrays, little-endian (`toBytesLE`, `fromBytesLE`) and big-endian (`toBytesBE`, `fromBytesBE`). A negative value is encoded by its magnitude. The library has several interchangeable back ends, and this project models each of them and proves it correct against one shared mathematical definition:

- **Two C addons over N-API.**
  - `src/node/native/module.c` (module `WordPoolAddon`) copies the argument's 64-bit words into a bump-pointer pool of 1024 words.
  - `src/node/native.c` (module `BytePoolAddon`) does the same with a pool of 8192 bytes.
  - Both return a `Uint8Array` over the words with the zero high bytes trimmed. For `toBytesBE` the bytes are reversed in place first.
  - Both use the `clzb` and `reverse` helpers of `src/node/native/utils.h` (module `Utils`).
- **The Rust addon** of `native/src/lib.rs` (module `RustBinding`).
  - Its encoders write into a caller-supplied buffer and return the encoded length.
  - Its decoders either borrow the buffer's words or copy them into a zeroed vector.
- **The portable DataView codec** of `src/browser.ts` (module `Browser`). It works eight bytes at a time, then in chunks of 4, 2 and 1 bytes that go through `Number`.
- **The hex-string fallback** of `src/node/fallback.ts` (module `Fallback`), built on `toString(16)`, the Buffer hex codec and `BigInt("0x…")` (module `Hex`).
- **The loader's search** for the native module in `src/node/bindings.ts` (module `Bindings`):
  - `findBuild` for node-gyp builds;
  - `findArch`, which picks the most specific `<platform>-<archs>` directory;
  - `findPrebuild`, which parses the dot-separated tags of prebuild names and chooses one;
  - the module path order: Release, then Debug, then prebuilds under the package root, then beside the executable.

The shared vocabulary lives in `Bytes`:
- `LE`/`BE` give the number a byte sequence denotes.
- `NatToLE`/`NatToBE` give the k-byte encodings of a number.
- `SignificantBytes` and `MinimalLE` give its minimal encoding.
- `WordsBytes` is the in-memory image of 64-bit words on a little-endian host.
- `PaddedWords` reads bytes back into words.

`Host` models what the addons see of the JavaScript engine:
- BigInt arguments, given as canonical words with no zero top word;
- the two argument errors;
- the engine copying a BigInt's words into memory;
- `napi_create_bigint_words`;
- `napi_fatal_error`.

For every back end the model proves the same facts:
- each encoder writes the magnitude in its minimal (or documented) length;
- each decoder returns the value its bytes denote, so decoding an encoding gives back the magnitude;
- the big-endian form is the reversal of the little-endian form.

Where the code does something other than this, the as-written behaviour is modelled and the discrepancy is exhibited under "## Findings".

The C and TypeScript code that updates memory in place is imperative Dafny:
- the pools are classes whose methods update `poolData`/`poolOffset`;
- `revswap`/`reverse`, the DataView loops and the Rust copies are methods over `array`s with loop invariants.

The pure parts (clzb, the hex codec, tag classification, the choice of a prebuild) are functions with lemmas.

## Model

| member | source | states |
|---|---|---|
| Host.CheckArgs | src/node/native/module.c:122-131 | no error exactly when there is one BigInt argument; ERR_MISSING_ARGS for any other argument count, ERR_INVALID_ARG_TYPE for a non-BigInt |
| Host.ReadWord | src/node/native/module.c:156 | the uint64_t read at an offset is the word whose little-endian image is the 8 bytes there |
| Host.WriteWords | src/node/native/module.c:137 | napi_get_value_bigint_words stores the words' image at the offset and changes no other byte |
| Host.Shown | src/node/native/module.c:162-163 | the bytes a Uint8Array over the pool shows: length bytes from its offset |
| Host.TailAt | src/node/native/module.c:155-156 | for words stored at a byte offset of a larger buffer, the tail word read back is their nonzero top word |
| Host.PrefixAt | src/node/native/module.c:154-162 | for words stored at a byte offset of a larger buffer, the SignificantBytes bytes from that offset are the minimal little-endian encoding |
| Host.TailOfImage | src/node/native/module.c:155-156 | the tail word read back from the image is the top word of the BigInt, and it is nonzero |
| Host.PrefixOfImage | src/node/native/module.c:154-162 | the first SignificantBytes bytes of the stored image are the minimal little-endian encoding of the value |
| Host.WordCountOfValue | native/src/lib.rs:29-43 | the host's word count for a BigInt is its byte length rounded up to whole words |
| Host.Normalize | native/src/lib.rs:105 | dropping zero top words keeps the value and leaves canonical words unchanged |
| Host.CreateBigIntWords | native/src/lib.rs:105 | napi_create_bigint_words gives a BigInt whose magnitude is the words' value, negative only for a set sign bit and a nonzero value |
| Utils.LeadingZeroBytes | src/node/native/utils.h:31-80 | the number of zero high bytes of a word: at most 8, and for n != 0 the r with 256^(7-r) <= n < 256^(8-r) |
| Utils.LeadingZeroBits | native/src/lib.rs:75 | u64::leading_zeros, at most 64 |
| Utils.BitScanReverse | src/node/native/utils.h:43 | the index of the highest set bit: n shifted right by it is 1 |
| Utils.ClzbBuiltin | src/node/native/utils.h:31-38 | the __builtin_clzl / __builtin_clzll branch is the zero-high-byte count for every nonzero word |
| Utils.ClzbBitScan64 | src/node/native/utils.h:40-45 | the _BitScanReverse64 branch is the zero-high-byte count for every nonzero word |
| Utils.ClzbBitScan32 | src/node/native/utils.h:48-60 | the 32-bit _BitScanReverse branch as written: correct below 2^32, eight too many from 2^32 up |
| Utils.ClzbBitScan32Corrected | src/node/native/utils.h:52-55 | the same branch counting the high half from bit 31 is the zero-high-byte count for every nonzero word |
| Utils.HighHalf | src/node/native/utils.h:52-58 | the high half n >> 32 is nonzero exactly when n >= 2^32; from it, (95 - index) / 8 is the count plus 8 and (31 - index) / 8 is the count |
| Utils.ClzbPortable | src/node/native/utils.h:63-79 | the portable binary search is at most 7, is 7 for 0, and is the zero-high-byte count for nonzero words |
| Utils.PortableCases | src/node/native/utils.h:65-77 | each leaf of the search pins the significant length between two shifts |
| Utils.ClzbBranchesAgree | src/node/native/utils.h:31-80 | for n != 0 the builtin, 64-bit scan, corrected 32-bit scan and portable branches all agree, and equal leading_zeros / 8 |
| Utils.ClzbOfZero | src/node/native/utils.h:63-79 | leading_zeros(0) / 8 is 8 while the portable clzb(0) is 7 |
| Utils.ClzbBitScan32Counterexample | src/node/native/utils.h:52-55 | on 2^32 the 32-bit branch returns 11 where the count is 3 |
| Utils.Revswap | src/node/native/utils.h:85-94 | swapping two disjoint n-byte ranges end to end: a[i] and b[n-1-i] exchanged, every other byte unchanged |
| Utils.Reverse | src/node/native/utils.h:96-103 | the len bytes at the offset are reversed in place and nothing else changes |
| WordPoolAddon.EncodedLength | src/node/native/module.c:154-158 | 0 for no words, otherwise all the bytes but the zero high bytes of the top word |
| WordPoolAddon.EncodedLengthOfWords | src/node/native/module.c:154-158 | for the host's words that length is the minimal byte length of the magnitude |
| WordPoolAddon.Pool.constructor | src/node/native/module.c:27-41 | no pool yet and the offset starts past its end, at POOL_SIZE + 1 |
| WordPoolAddon.Pool.CreatePool | src/node/native/module.c:43-64 | on success a fresh pool of POOL_SIZE words with offset 0; on host failure a fatal error and no change |
| WordPoolAddon.Pool.Alloc | src/node/native/module.c:66-105 | below POOL_SIZE / 2 words the allocation comes from the pool at the old offset, or at 0 of a fresh pool exactly when it would not fit, and the offset advances by the count, the range appended to those still in the pool (Pool.Advanced); larger requests get a fresh buffer and leave the pool alone; handed-out ranges never overlap |
| WordPoolAddon.Pool.GetBigIntWords | src/node/native/module.c:112-143 | argument errors are thrown and change nothing; otherwise the allocation holds the argument's word image. A pool allocation (below POOL_SIZE / 2) leaves the pool state as Alloc does (Pool.Advanced: rotated exactly when it would not fit, at the old offset or 0, the offset advanced by the request, its range appended to those still in the pool) and every other pool byte unchanged; a larger one is a fresh buffer and leaves the pool and its state untouched; a host failure is fatal and changes nothing |
| WordPoolAddon.Pool.ToBytesLE | src/node/native/module.c:145-169 | the returned view is exactly the minimal little-endian bytes of the magnitude; it is at most 8 bytes per word; a pool view leaves the pool state as Alloc does (Pool.Advanced) and every other pool byte unchanged; a larger request gets a fresh buffer and leaves the pool and its state untouched; argument errors and host failures change nothing |
| WordPoolAddon.Pool.ToBytesBE | src/node/native/module.c:171-196 | the returned view is exactly the minimal bytes of the magnitude, most significant first, reversed in place; it is at most 8 bytes per word; a pool view leaves the pool state as Alloc does (Pool.Advanced) and every other pool byte unchanged; a larger request gets a fresh buffer and leaves the pool and its state untouched; argument errors and host failures change nothing |
| WordPoolAddon.TrimmedLength | src/node/native/module.c:154-158 | the length computed from the tail word is the minimal length, and the bytes below it are the minimal encoding |
| WordPoolAddon.TrimmedReversed | src/node/native/module.c:179-185 | those bytes are reversed in place; the bytes before the offset and past the words are unchanged |
| WordPoolAddon.ToBytesLEKeeping | src/node/native/module.c:145-169 | a toBytesLE call keeps the bytes of every earlier view that lies below byte 8 * poolOffset of the pool or outside the pool, since the pool memory stays referenced by the views handed out |
| WordPoolAddon.ToBytesBEKeeping | src/node/native/module.c:171-196 | the same for toBytesBE, whose in-place reversal stays within its own range |
| WordPoolAddon.ConsecutiveViews | src/node/native/module.c:145-196 | after a toBytesLE and then a toBytesBE call both views show their own argument's bytes: the first is not overwritten by the second |
| BytePoolAddon.ClzbBuiltinWide | src/node/native.c:17-20 | __builtin_clzll for an unsigned long long of any width >= 64, less the extra width, divided by 8, is the zero-high-byte count |
| BytePoolAddon.EncodedLength | src/node/native.c:218-222 | 0 for no words, otherwise all the bytes but the zero high bytes of the top word |
| BytePoolAddon.Pool.constructor | src/node/native.c:100-105 | no pool yet and the offset starts past its end, at POOL_SIZE + 1 |
| BytePoolAddon.Pool.CreatePool | src/node/native.c:107-127 | on success a fresh pool of POOL_SIZE bytes with offset 0; on host failure a fatal error and no change |
| BytePoolAddon.Pool.Alloc | src/node/native.c:129-169 | as for the word pool but counted in bytes (8 * wordCount < POOL_SIZE / 2); every allocation starts at a multiple of 8, as the comment at line 151 claims |
| BytePoolAddon.Pool.GetBigIntWords | src/node/native.c:176-207 | argument errors are thrown and change nothing; otherwise the allocation holds the argument's word image. A pool allocation (below POOL_SIZE / 2) leaves the pool state as Alloc does (Pool.Advanced: rotated exactly when it would not fit, at the old offset or 0, the offset advanced by the request, its range appended to those still in the pool) and every other pool byte unchanged; a larger one is a fresh buffer and leaves the pool and its state untouched; a host failure is fatal and changes nothing |
| BytePoolAddon.Pool.ToBytesLE | src/node/native.c:209-233 | the returned view is exactly the minimal little-endian bytes of the magnitude; it is at most 8 bytes per word; a pool view leaves the pool state as Alloc does (Pool.Advanced) and every other pool byte unchanged; a larger request gets a fresh buffer and leaves the pool and its state untouched; argument errors and host failures change nothing |
| BytePoolAddon.Pool.ToBytesBE | src/node/native.c:235-261 | the returned view is exactly the minimal bytes of the magnitude, most significant first, reversed in place; it is at most 8 bytes per word; a pool view leaves the pool state as Alloc does (Pool.Advanced) and every other pool byte unchanged; a larger request gets a fresh buffer and leaves the pool and its state untouched; argument errors and host failures change nothing |
| BytePoolAddon.TrimmedLength | src/node/native.c:218-222 | the length computed from the tail word with the wide clzb is the one module.c computes, so by WordPoolAddon.EncodedLengthOfWords it is the minimal length, and the bytes below it are the minimal encoding |
| BytePoolAddon.TrimmedReversed | src/node/native.c:244-250 | those bytes are reversed in place; the bytes before the offset and past the words are unchanged |
| BytePoolAddon.ToBytesLEKeeping | src/node/native.c:209-233 | a toBytesLE call keeps the bytes of every earlier view that lies below byte poolOffset of the pool or outside the pool, since the pool memory stays referenced by the views handed out |
| BytePoolAddon.ToBytesBEKeeping | src/node/native.c:235-261 | the same for toBytesBE, whose in-place reversal stays within its own range |
| BytePoolAddon.ConsecutiveViews | src/node/native.c:209-261 | after a toBytesLE and then a toBytesBE call both views show their own argument's bytes: the first is not overwritten by the second |
| RustBinding.WordLength | native/src/lib.rs:28-43 | the failed status for a non-BigInt; otherwise the word count, ceil(bytes / 8), truncated to u32 |
| RustBinding.HostImage | native/src/lib.rs:51-69 | after the host call, buf holds the words' image, followed by its old bytes on the aligned path or by the scratch vector's bytes on the unaligned one |
| RustBinding.ToBytesLEInner | native/src/lib.rs:45-83 | a status error for a non-BigInt, with buf untouched; otherwise buf holds that image, and the returned length is the minimal length, whose bytes are the minimal little-endian encoding |
| RustBinding.CopyThroughScratch | native/src/lib.rs:55-68 | the unaligned path leaves the words' image followed by the scratch bytes in buf |
| RustBinding.TrimmedLength | native/src/lib.rs:71-77 | (word_count * 8) as u32 - leading_zeros(tail) / 8 is the minimal length, and 0 for no words |
| RustBinding.EncodedLength | native/src/lib.rs:75 | for nonzero words the u32 cast does not truncate and the subtraction does not wrap |
| RustBinding.ZeroTailSubtractsWord | native/src/lib.rs:75 | a zero tail would subtract a whole word, which canonical words never have |
| RustBinding.ToBytesBE | native/src/lib.rs:85-90 | buf[..len] is the minimal encoding most significant first; the bytes past len are as the host left them |
| RustBinding.WordsOf | native/src/lib.rs:92-102 | (definition) a borrowed result stands for the buffer's own words, an owned one for its vector |
| RustBinding.ToNapiValue | native/src/lib.rs:97-108 | a non-negative BigInt with the value of those words |
| RustBinding.FromBytesLE | native/src/lib.rs:110-130 | borrowed exactly when aligned and a whole number of words, otherwise the zero-padded words; either way the value is the bytes read little-endian |
| RustBinding.FromBytesBE | native/src/lib.rs:132-148 | as written: sign false and the bytes copied in their given order, so the value is the bytes read little-endian |
| RustBinding.FromBytesBEMisorders | native/src/lib.rs:132-148 | [1, 2, 3] decodes to 0x030201, not the big-endian 0x010203 |
| RustBinding.FromBytesBEIntended | native/src/lib.rs:132-148 | with the copied bytes reversed, the value is the bytes read big-endian |
| RustBinding.CopyIntoWords | native/src/lib.rs:121-128 | the copy path yields the zero-padded words of the buffer |
| RustBinding.CopyIntoVector | native/src/lib.rs:121-126 | vec![0; n] with the len bytes copied in is the buffer followed by the padding zeros |
| RustBinding.PadLengthOfCount | native/src/lib.rs:121 | ceil(len / 8) words leave exactly the padding to a word boundary |
| RustBinding.FastPathAgrees | native/src/lib.rs:118-119 | the borrowed words are the words the copy path would build |
| RustBinding.RoundTrip | native/src/lib.rs:45-130 | from_bytes_le of what to_bytes_le wrote gives back the magnitude as a non-negative BigInt on both paths, for any sign (the sign is not encoded) |
| Hex.NatToHex | src/browser.ts:8 | toString(16): lowercase hex digits, at least one, with no leading zero |
| Hex.HexDigitChars | src/node/fallback.ts:61 | the characters BigInt("0x…") accepts as digits are 0-9, a-f and A-F |
| Hex.HexValueZero | src/node/fallback.ts:61 | a digit string denotes zero exactly when every digit is "0" |
| Hex.NatToHexValue | src/browser.ts:8 | the digits of toString(16) denote the number |
| Hex.HexLength | src/browser.ts:8 | (digits + 1) >>> 1 is the minimal byte length, and 1 for zero |
| Hex.PadEven | src/node/fallback.ts:39-41 | a "0" in front of an odd digit string makes it even and keeps its value |
| Hex.BytesToHex | src/node/fallback.ts:25-31 | two lowercase digits per byte |
| Hex.BytesToHexValue | src/node/fallback.ts:25-31 | those digits denote the bytes read big-endian |
| Hex.HexToBytes | src/node/fallback.ts:16-23 | one byte per two digits |
| Hex.HexToBytesOfBytesToHex | src/node/fallback.ts:16-31 | the hex decoder undoes the hex encoder |
| Hex.BytesToHexOfHexToBytes | src/node/fallback.ts:16-31 | the hex encoder undoes the decoder on lowercase digits |
| Hex.HexToBytesValue | src/node/fallback.ts:16-23 | the decoded bytes read big-endian are the value of the digits |
| Hex.ParseHexLiteral | src/node/fallback.ts:61 | BigInt("0x" + digits) is a SyntaxError exactly for no digits (or a non-hex one), otherwise the value of the digits |
| Browser.NumberOf | src/browser.ts:21 | Number(n) on a value below 2^56: n itself below 2^53, otherwise the nearest double |
| Browser.RoundToMultipleNearest | src/browser.ts:21 | the rounding Number applies is to a multiple of m at most m / 2 away, an even multiple on a tie |
| Browser.ByteLength | src/browser.ts:8 | the allocated length is the minimal byte length, and 1 for zero |
| Browser.TopChunk | src/browser.ts:13-19 | what is left after the whole words fits in the remaining len & 7 bytes |
| Browser.TopChunkBound | src/browser.ts:13-19 | what is left after the whole words fits in the remaining len & 7 bytes, and is below 2^56 |
| Browser.ChunkBytes | src/browser.ts:19-67 | one 4/2/1 block writes w bytes when w remain and none otherwise; the exact chunk is the w low bytes of the top; the big-endian block is the little-endian one reversed |
| Browser.TailLE | src/browser.ts:19-34 | the three blocks of toBytesLE together write exactly the remaining len & 7 bytes |
| Browser.TailBE | src/browser.ts:55-67 | the three blocks of toBytesBE together write exactly the remaining len & 7 bytes |
| Browser.EncodeLE | src/browser.ts:3-37 | the bytes toBytesLE writes have the allocated length |
| Browser.EncodeBE | src/browser.ts:39-70 | the bytes toBytesBE writes have the allocated length |
| Browser.EncodeLECorrected | src/browser.ts:19-34 | the same layout with the partial chunks taken from the exact bits |
| Browser.TailLECorrectedIsNatToLE | src/browser.ts:19-34 | with exact chunks, the 4/2/1 blocks write exactly the low bytes of what is left |
| Browser.TailLEExactBelow53 | src/browser.ts:19-34 | below 2^53 the blocks as written are the exact ones |
| Browser.TailBEReversesLE | src/browser.ts:55-67 | filling from the end writes the same chunks in the opposite order |
| Browser.EncodeLECorrectedDenotes | src/browser.ts:3-37 | the exact encoder writes n little-endian in the allocated length, so it reads back as n |
| Browser.EncodeLEExact | src/browser.ts:3-37 | when the top chunk is below 2^53, toBytesLE is that exact encoding |
| Browser.SmallTopChunk | src/browser.ts:13-19 | every magnitude below 2^53 has its top chunk below 2^53 |
| Browser.EncodeBEReversesLE | src/browser.ts:39-70 | toBytesBE is toBytesLE reversed, for every magnitude |
| Browser.EncodeBEExact | src/browser.ts:39-70 | when the top chunk is below 2^53, toBytesBE is the exact big-endian encoding, which reads back as n |
| Browser.EncodeLEMinimal | src/browser.ts:3-37 | for nonzero n that encoding is the minimal one; zero is written as one zero byte |
| Browser.EncodeLERounds | src/browser.ts:19-34 | 2^55 + 1 is written as the encoding of 2^55, where the exact encoding differs |
| Browser.EncodeBERounds | src/browser.ts:55-67 | toBytesBE writes the big-endian encoding of 2^55 for 2^55 + 1 |
| Browser.SetUint | src/browser.ts:14 | setUint8/16/32 and setBigUint64: the w low bytes of v at the offset in the chosen order, nothing else changed |
| Browser.SetUintLE | src/browser.ts:14 | the little-endian store |
| Browser.SetUintBE | src/browser.ts:51 | the big-endian store |
| Browser.ToBytesLE | src/browser.ts:3-37 | a fresh buffer holding the bytes toBytesLE writes for the magnitude |
| Browser.ToBytesLEWords | src/browser.ts:12-17 | after the word loop the offset is the whole-word part of the length, the low words are written, and n is shifted by as much |
| Browser.ToBytesLETail | src/browser.ts:19-34 | the 4/2/1 blocks write the partial chunks at the offset, through Number |
| Browser.TailStepLE | src/browser.ts:20-31 | one block writes its chunk and advances offset and remaining |
| Browser.ToBytesBE | src/browser.ts:39-70 | a fresh buffer holding the bytes toBytesBE writes for the magnitude |
| Browser.ToBytesBEWords | src/browser.ts:48-53 | the word loop fills words from the end, leaving remaining = len & 7 bytes at the front |
| Browser.ToBytesBETail | src/browser.ts:55-67 | the 4/2/1 blocks fill the front bytes from the end, through Number |
| Browser.TailStepBE | src/browser.ts:55-63 | one block writes its chunk in front of what is written |
| Browser.FromBytesLE | src/browser.ts:72-96 | the result is the bytes read little-endian (0 for an empty buffer) |
| Browser.ReadChunkLE | src/browser.ts:83-93 | one block takes the next chunk below remaining, keeping n the value of the bytes from remaining up |
| Browser.FromBytesBE | src/browser.ts:98-126 | the result is the bytes read big-endian (0 for an empty buffer) |
| Browser.ReadChunkBE | src/browser.ts:110-123 | one block takes the next chunk at the offset, keeping n the value of the bytes before it |
| Fallback.Magnitude | src/node/fallback.ts:34-36 | the sign is dropped: the result is n or -n |
| Fallback.FromHex | src/node/fallback.ts:16-23 | half as many bytes as digits; for lowercase digits they read big-endian as the digits' value, and toHex gives the digits back |
| Fallback.ToHex | src/node/fallback.ts:25-31 | lowercase digits, two per byte, denoting the bytes read big-endian |
| Fallback.FromHexOfToHex | src/node/fallback.ts:16-31 | fromHex undoes toHex |
| Fallback.EvenHex | src/node/fallback.ts:38-41 | the padded digits have even length, denote x, and make the minimal byte length (1 for zero) |
| Fallback.ToBytesBEDenotes | src/node/fallback.ts:46-57 | toBytesBE is the magnitude big-endian in the minimal length (1 for zero) and reads back as the magnitude |
| Fallback.ToBytesBEOfZero | src/node/fallback.ts:46-57 | zero becomes one zero byte, where the minimal encoding is empty |
| Fallback.ToBytesBEMinimal | src/node/fallback.ts:46-57 | a nonzero magnitude is written without a leading zero byte |
| Fallback.FromHexBuffer | src/node/fallback.ts:18-22 | a fresh buffer holding the bytes fromHex makes |
| Fallback.ToBytesLE | src/node/fallback.ts:33-44 | a fresh buffer holding the toBytesBE bytes reversed |
| Fallback.ToBytesLEDenotes | src/node/fallback.ts:33-44 | those bytes are the magnitude little-endian in the minimal length and read back as it |
| Fallback.FromBytesBE | src/node/fallback.ts:64-67 | a SyntaxError exactly for an empty buffer, otherwise the bytes read big-endian |
| Fallback.FromBytesLE | src/node/fallback.ts:59-62 | the caller's buffer is left reversed; a SyntaxError exactly when it is empty, otherwise the original bytes read little-endian |
| Fallback.RoundTrip | src/node/fallback.ts:33-67 | decoding the encoders' output gives back the magnitude, big-endian and little-endian |
| Fallback.AgreesWithCorrectedBrowser | src/node/fallback.ts:33-57 | the hex codec writes the same bytes as the exact DataView encoder, for every value |
| Fallback.AgreesWithBrowser | src/node/fallback.ts:33-57 | and the same bytes as browser.ts as written whenever its Number step is exact |
| Bindings.Split | src/node/bindings.ts:105 | String.prototype.split on one character: at least one part, none containing the separator |
| Bindings.JoinSplit | src/node/bindings.ts:203-208 | joining the parts with the separator gives the string back |
| Bindings.Join | src/node/bindings.ts:179 | path.join(dir, name): dir, a slash, then the name |
| Bindings.ReadDir | src/node/bindings.ts:188-193 | (definition) the listing of a directory, None exactly where readdirSync throws |
| Bindings.ScanArchs | src/node/bindings.ts:213-222 | skip exactly when an element other than the arch is empty; otherwise whether the arch is listed |
| Bindings.DirArchCount | src/node/bindings.ts:198-222 | a directory named <platform>-<archs> for this platform listing this arch gives its arch count; every other entry is skipped |
| Bindings.ArchCount | src/node/bindings.ts:198-222 | a counted entry is a directory with exactly one "-" in its name, serving at least one arch |
| Bindings.FindArch | src/node/bindings.ts:187-232 | None if the directory cannot be listed or nothing matches; otherwise dir joined to the first matching directory that serves the fewest archs, that is ArchDirOf of the directory |
| Bindings.FirstFewestUnique | src/node/bindings.ts:225-228 | the first of the entries serving the fewest archs is unique |
| Bindings.ArchDirOf | src/node/bindings.ts:187-232 | the directory findArch picks, as a value: when there is one it lies under dir/ |
| Bindings.ArchDirOfIs | src/node/bindings.ts:225-231 | it is dir joined to that first fewest-arch entry |
| Bindings.ParseTags | src/node/bindings.ts:110-160 | the tag loop yields the declarative tags: rejected by a libc, uv or armv mismatch, with the last runtime and abi tags, the napi flag, and one point per kind of tag |
| Bindings.ClassifyMeaning | src/node/bindings.ts:116-154 | the switch over one tag: runtime and abi tags carry their own names, a libc, uv or armv tag is recognised only for this environment, and a mismatch is such a tag for another one |
| Bindings.TagsOf | src/node/bindings.ts:110-160 | a file is rejected exactly when one of its tags mismatches; otherwise its Tags carry its name and a specificity no larger than its number of tags |
| Bindings.KindsBound | src/node/bindings.ts:156-159 | each tag adds at most one kind |
| Bindings.TagStep | src/node/bindings.ts:113-160 | how one more tag changes the rejection, kinds, runtime, abi and napi flag |
| Bindings.RejectsPrefix | src/node/bindings.ts:131-149 | once a file is rejected, later tags cannot undo it |
| Bindings.RejectsIff | src/node/bindings.ts:131-149 | a file is rejected exactly when one of its tags mismatches the environment |
| Bindings.SpecificityBound | src/node/bindings.ts:156-159 | specificity is at most 6, one per kind of tag |
| Bindings.UnknownTagIgnored | src/node/bindings.ts:151-152 | an unrecognised tag changes nothing |
| Bindings.RepeatedKindCountsOnce | src/node/bindings.ts:156-159 | a second tag of a kind already seen adds no specificity |
| Bindings.NewKindCounts | src/node/bindings.ts:156-159 | a tag of a new kind adds exactly one |
| Bindings.Accepted | src/node/bindings.ts:162-167 | a Node-API build is accepted for this runtime or node; any other build must name this runtime and this abi |
| Bindings.Replaces | src/node/bindings.ts:169-174 | a file with more tags always replaces the pick, one with the same runtime and abi only with more tags, and no file replaces itself |
| Bindings.PickAsWritten | src/node/bindings.ts:100-177 | the loop's pick is always an accepted candidate naming a runtime, and a candidate last in the listing is always picked over nothing |
| Bindings.Candidate | src/node/bindings.ts:100-167 | a candidate is a regular file passing the runtime and abi checks, with tags naming a runtime and its own file name |
| Bindings.FileTags | src/node/bindings.ts:100-167 | the checks on one entry yield exactly its candidate tags |
| Bindings.PickAsWrittenIsCandidate | src/node/bindings.ts:169-176 | the loop picks something exactly when some file is a candidate, and the pick is one of them |
| Bindings.PickPrebuild | src/node/bindings.ts:97-177 | the files loop computes the as-written pick |
| Bindings.FindPrebuild | src/node/bindings.ts:83-180 | it is PrebuildOf: Ok(None) without a prebuilds directory, a match, or a pick; Err exactly when findArch's directory cannot be listed; a result is the pick among that directory's files joined to it |
| Bindings.PrebuildOf | src/node/bindings.ts:83-180 | the prebuild for a root, as a value: Ok(None) without dir/prebuilds, and a path under dir/prebuilds/ when there is one |
| Bindings.FirstBuild | src/node/bindings.ts:71-73 | the index of the first regular ".node" file, None exactly when there is none |
| Bindings.FindBuild | src/node/bindings.ts:68-78 | as written: the bare name of that file, None when the directory cannot be listed or has none |
| Bindings.FindBuildCorrected | src/node/bindings.ts:68-78 | the same file joined to its directory, so the path starts with dir/ |
| Bindings.FindBuildOfOne | src/node/bindings.ts:68-78 | a directory listing only one .node file reports that file's name |
| Bindings.FindBuildDropsDirectory | src/node/bindings.ts:73 | a.node in r/build/Release is reported as "a.node", not as a path in that directory |
| Bindings.IsBuild | src/node/bindings.ts:73 | a build is a regular file whose name is at least ".node" long, so never the falsy empty string |
| Bindings.ModulePath | src/node/bindings.ts:25-49 | Release before Debug unless PREBUILDS_ONLY; otherwise, or when neither build exists, the prebuild under the root unless that is Ok(None), then the one beside the executable; a result is one of these |
| Bindings.NonEmptyBuildName | src/node/bindings.ts:28-33 | a found build name is never the falsy empty string |
| Bindings.PickCorrectedNone | src/node/bindings.ts:169-174 | the intended choice is None exactly when no entry is a matching candidate |
| Bindings.PickCorrectedMax | src/node/bindings.ts:169-174 | every matching candidate ranks no higher than the intended choice |
| Bindings.PickCorrectedFirst | src/node/bindings.ts:169-174 | the intended choice is the earliest candidate of its rank in the listing |
| Bindings.PickCorrectedIsBest | src/node/bindings.ts:169-174 | the intended choice: a candidate of the highest rank (runtime match, then abi tag, then specificity), the first of that rank, and None exactly when there is no candidate |
| Bindings.TagsOfTwo | src/node/bindings.ts:110-160 | the tags of a name with two recognised tags |
| Bindings.PickOfTwo | src/node/bindings.ts:169-176 | both choices over two candidates, in terms of Replaces and Rank |
| Bindings.PickAsWrittenOrderDependent | src/node/bindings.ts:169-174 | under Electron abi 1, [electron.abi1.node, node.napi.node] picks the napi build and the reverse order picks the Electron one |
| Bindings.PickCorrectedOrderIndependent | src/node/bindings.ts:169-174 | the intended choice picks the Electron build in both orders |

## Left out

- N-API plumbing is not modelled, and every failing napi status is one `hostOk` flag leading to `Fatal` (or, for argument checks, to the two TypeErrors). Left out: the module registration (`NAPI_MODULE_INIT`, napi-rs `#[napi]`), property export, `napi_ref` reference counting and garbage collection of pools.
- The host is taken to be little-endian, and BigInt words to be canonical (no zero top word, no words for 0n), as V8 stores them. `src/node/native/bswap.h` is not part of this model.
- The pool `alloc` of the TypeScript back ends (`src/alloc`) is not part of this model; a fresh zeroed buffer stands for it.
- Utils.ClzbBuiltin: the C encoders are modelled with the GCC/Clang branch, and canonical words never give a zero tail. Utils.ClzbBranchesAgree proves Utils.ClzbBitScan64, Utils.ClzbBitScan32Corrected and Utils.ClzbPortable equal to it for nonzero words. The 32-bit branch as written, Utils.ClzbBitScan32, is not equal to it from 2^32 up; see row 1 of "## Findings".
- BytePoolAddon.ClzbBuiltinWide: the portable clzb of `src/node/native.c` (lines 51-68) reads an undeclared `word` and does not compile. It is modelled once, as Utils.ClzbPortable.
- RustBinding.ToBytesLEInner: a buffer too small for the words, or an unaligned buffer whose length is not a multiple of 8, makes the Rust code read past its allocation. Both are preconditions. So is a buffer length below 2^32 (the `as u32` cast). Uninitialised scratch bytes are a parameter.
- RustBinding.FromBytesLE: alignment is an input flag, not a pointer property.
- Browser.NumberOf: Number is modelled only for the values the chunk steps can see (below 2^56), as round-to-nearest-even on integers. The masks `& 0xffff_ffff` and `& 0xffff` are applied to that integer.
- Fallback.FromHex: all three fromHex/toHex routes (hexWrite/hexSlice, `toString("hex")`, `Buffer.from`) are one function each. Odd or non-hex input is never passed, so their behaviour on it is not modelled.
- Bindings.ModulePath: the environment values (`abi`, `runtime`, `libc`, `armv`, `uv`, `platform`, `arch`, lines 8-23) are the `Env` parameter. `isElectron`, `isAlpine`, `process.env`, `require` and `loadNative` are outside the model.
- Bindings.Join: `path.join` is concatenation with "/". Normalisation of "..", repeated or trailing slashes and Windows separators is not modelled.
- Bindings.DirArchCount: the source's `archs.length === 0` check is dead, because a split never yields an empty list. The model has no such branch.
- Bindings.FindPrebuild: a second `readdirSync` that throws is `Err(ReadDirFailed)`. In the source that exception propagates out of module loading.

## Findings

| source | as written | input that shows it | evidently intended | confidence | as-written member | corrected member |
|---|---|---|---|---|---|---|
| src/node/native/utils.h:52-54 (also src/node/native.c:24, 35-49) | for n >= 2^32 the 32-bit `_BitScanReverse` branch returns (95 - index) / 8. In native.c the 64-bit branch is guarded by `__x86_64__`, which MSVC does not define (it defines `_M_X64`), and Windows has a 32-bit `unsigned long`, so on 64-bit Windows this is the branch native.c compiles to | n = 2^32: index 0 gives 11, where the word has 3 zero high bytes | (31 - index) / 8 for the high half | high, not executed | Utils.ClzbBitScan32, Utils.ClzbBitScan32Counterexample | Utils.ClzbBitScan32Corrected, Utils.ClzbBranchesAgree |
| native/src/lib.rs:132-148 | `from_bytes_be` copies the bytes into the words in their given order, exactly as `from_bytes_le` does | [1, 2, 3] decodes to 0x030201 | the bytes reversed, so that [1, 2, 3] decodes to 0x010203 | high, not executed | RustBinding.FromBytesBE, RustBinding.FromBytesBEMisorders | RustBinding.FromBytesBEIntended |
| src/browser.ts:19-34 | the partial chunks go through `Number(n)`, which rounds once the remaining value reaches 2^53 | n = 2^55 + 1 (seven bytes, no whole word) encodes as 2^55 | the exact low bytes, for example with BigInt masks | high, not executed | Browser.EncodeLE, Browser.EncodeLERounds | Browser.EncodeLECorrected, Browser.EncodeLECorrectedDenotes |
| src/browser.ts:55-67 | the same `Number(n)` rounding in `toBytesBE` | n = 2^55 + 1 encodes big-endian as 2^55 | the exact high bytes | high, not executed | Browser.EncodeBE, Browser.EncodeBERounds | Browser.EncodeLECorrected, Fallback.AgreesWithCorrectedBrowser |
| src/node/bindings.ts:68-78 | `findBuild` returns the bare name of the file (`?.name`), and `require` of a bare name searches node_modules | a.node in r/build/Release gives "a.node" | the path of the file in that directory, as `findPrebuild` returns | medium, not executed | Bindings.FindBuild, Bindings.FindBuildDropsDirectory | Bindings.FindBuildCorrected |
| src/node/bindings.ts:169-174 | a later file replaces the pick when its runtime differs and is not this runtime, when its abi differs, or when it has more tags, so the choice depends on listing order | under Electron abi 1, [electron.abi1.node, node.napi.node] picks node.napi.node and the reverse listing picks electron.abi1.node | prefer this runtime, then an abi tag, then more tags, in any order | medium, not executed | Bindings.Replaces, Bindings.PickAsWritten, Bindings.PickAsWrittenOrderDependent | Bindings.PickCorrected, Bindings.PickCorrectedIsBest, Bindings.PickCorrectedOrderIndependent |
