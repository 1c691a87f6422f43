# multihash decoder, modelled in Dafny

This project models the decoder of the C++ multihash library as Dafny
definitions and proves properties about them. A multihash is a
self-describing digest: `varint(code) varint(length) digest`. The varints
are unsigned LEB128: seven payload bits per byte, least significant group
first, and the high bit set on every byte except the last.

The model follows the library's structure:

- `defs.dfy` (module `Defs`) holds the shared types:
  - bytes;
  - `Option` and `Result`;
  - the error constants the decoder returns;
  - `ByteBuf`, a class standing for a `Bytes &` that a callee may replace.
- `registry.dfy` (module `Registry`) holds the static tables of the header:
  - the `hash` enumeration;
  - `hash_by_code`, built the way `std::map` builds a map from its initializer list: entries are inserted in order and a repeated key is ignored.
  - `hash_name`;
  - `validate`.
- `record.dfy` (module `Record`) holds the `Multihash` value, its default value and its constructor from a code. The getters `size`, `getCode`, `getHash` and `getDigest` are the datatype's fields.
- `binary.dfy` (module `Binary`) holds:
  - `binUvarint`, as a loop proved against a specification function;
  - `uvarint`, as a method that shortens the caller's buffer;
  - `decodeHex`, as a loop over two-character pieces read with the same rules as `strtol(piece, NULL, 16)` (white space, sign, digits of either case, no digits). A Dafny `string` here stands for a `std::string` whose characters are single bytes.
- `decode.dfy` (module `Decode`) holds `decode(Bytes &, Multihash &)` as a specification function, with a method on the caller's buffer. It also holds the three wrapper overloads.

Reference encoders are used only to state round trips: `Binary.EncodeVarint` for LEB128 and `Binary.HexOf` for hex text. The library declares `encode` but has no definition of it.

## Model

| member | source | states |
|---|---|---|
| Registry.InsertAllIsFirstMatch | include/multihash/multihash.h:51-74 | building a `std::map` from an initializer list keeps a key exactly when it is listed, and gives it the value of its first entry |
| Registry.HashByCodeIsBuiltFromList | include/multihash/multihash.h:51-74 | inserting the 22 listed entries in order gives exactly the table `HashByCode` |
| Registry.HashByCodeSize | include/multihash/multihash.h:51-74 | the list has 22 entries and the table 21 distinct codes |
| Registry.Sha3IsShadowed | include/multihash/multihash.h:59-60 | code 0x14 is listed twice and keeps SHA3_512; every hash function except SHA3 is the image of some code |
| Registry.HashByCodeInjective | include/multihash/multihash.h:51-74 | no two codes identify the same hash function |
| Registry.CodeOfIdentifies | include/multihash/multihash.h:26-74 | each enumerator except SHA3 has a code that maps back to it |
| Registry.CodeOfInverts | include/multihash/multihash.h:51-74 | the code of every table entry is recovered from its hash function |
| Registry.RegisteredCodesSmall | include/multihash/multihash.h:51-74 | every registered code is at most 0xb260 |
| Registry.UnregisteredAboveTable | include/multihash/multihash.h:51-74 | no code above 0xb260 is registered |
| Registry.NamesAreCodeImages | include/multihash/multihash.h:76-94 | every named hash function has a code; the BLAKE2 sentinels and SHA3 have no name |
| Registry.HashNameSize | include/multihash/multihash.h:76-94 | the name table has 17 entries |
| Registry.HashNameKeys | include/multihash/multihash.h:76-94 | every name is spelled with lowercase letters, digits and hyphens |
| Registry.RegisteredIffListed | include/multihash/multihash.h:131-134 | a code is registered exactly when the initializer list has an entry for it, with that entry's function; `validate` is the negation of that |
| Registry.ValidateIsInverted | include/multihash/multihash.h:131-134 | `validate` as written is false for the registered SHA-1 code and true for the unknown code 0x01 |
| Record.NewMultihash | include/multihash/multihash.h:99-101 | the constructor succeeds exactly on registered codes; it then stores code, length and digest unchanged and the function the table gives |
| Record.NewMultihashFollowsList | include/multihash/multihash.h:99-101 | the constructed function is the first list entry for the code, never SHA3, and maps back to the code |
| Record.DefaultIsRegistered | include/multihash/multihash.h:98 | the default value is code 0, the identity function, with an empty digest of length 0 |
| Binary.GroupsValue | src/multihash.cpp:24-27 | the value of n seven-bit groups is below 2^(7n) |
| Binary.GroupsValueStep | src/multihash.cpp:24-27 | that value is the sum of each group's payload times 2^(7k) for its index k |
| Binary.Terminal | src/multihash.cpp:18-20 | finds the first byte below 0x80; when there is none, every byte has the high bit |
| Binary.BinUvarint | src/multihash.cpp:14-30 | the loop returns exactly `UvarintOf` of the buffer (corrected guard) |
| Binary.UvarintCount | src/multihash.cpp:18-29 | count 0 exactly when no byte ends the varint; otherwise the count's magnitude is the terminal byte's index plus one, every earlier byte has the high bit set, and the count is negative exactly when the terminal byte comes too late (corrected guard) |
| Binary.UvarintFits64 | src/multihash.cpp:21-24 | a successful read uses at most ten bytes and gives a value below 2^64 (corrected guard) |
| Binary.UvarintPrefix | src/multihash.cpp:18-24 | bytes after the terminal byte do not change the result |
| Binary.UvarintOwnBytes | src/multihash.cpp:18-24 | the first `count` bytes decode on their own to the same result |
| Binary.UvarintRoundTrip | src/multihash.cpp:14-30 | for every value below 2^64, decoding its 1 to 10 byte encoding gives the value and consumes exactly the encoding |
| Binary.UvarintExamplesOneByte | tests/multihash_test.cpp:17-23 | [1] reads (1, 1) and [0x11, 0x12, 0x13] reads (0x11, 1) |
| Binary.UvarintExample128 | tests/multihash_test.cpp:26-28 | [0x80, 0x01, 0x07] reads (128, 2) |
| Binary.UvarintExample255 | tests/multihash_test.cpp:30-32 | [0xff, 0x01, 0x07] reads (255, 2) |
| Binary.UvarintExample300 | tests/multihash_test.cpp:34-36 | [0xac, 0x02, 0x07] reads (300, 2) |
| Binary.UvarintExample16384 | tests/multihash_test.cpp:38-40 | [0x80, 0x80, 0x01, 0x07] reads (16384, 3) |
| Binary.UvarintExampleEmpty | tests/multihash_test.cpp:43-45 | the empty buffer reads (0, 0) |
| Binary.UvarintExampleOverflow | tests/multihash_test.cpp:48-50 | nine 0x80 bytes and 0x02 read (0, -10) |
| Binary.UvarintAsWritten | src/multihash.cpp:14-30 | the source's own reading keeps only 32 bits of the value |
| Binary.GuardAsWrittenAcceptsLongVarints | src/multihash.cpp:21-24 | as written, a terminal 0 or 1 at index 10 or later is accepted, where the corrected guard reports overflow |
| Binary.ElevenByteVarintAccepted | src/multihash.cpp:21-22 | ten 0x80 bytes and 0x01 are read by the source with count 11, and report overflow with count -11 once corrected |
| Binary.FiveByteVarintTruncated | src/multihash.cpp:15-26 | 0x91 0x80 0x80 0x80 0x10 spells 0x1_0000_0011; the 32-bit accumulator keeps 0x11 |
| Binary.ElevenByteZeroRefused | src/multihash.cpp:10-24 | ten 0x80 bytes and 0x00 spell 0; the corrected guard still reports an eleven-byte overflow, and the source reads (0, 11) |
| Binary.UvarintAsWrittenAgreesOnShort | src/multihash.cpp:14-30 | on varints of at most four bytes the source and the corrected reading agree |
| Binary.ReadUvarint | src/multihash.cpp:34-44 | on success the remaining bytes are a proper suffix of the buffer; the only errors are the two varint errors |
| Binary.ReadUvarintErrors | src/multihash.cpp:34-41 | `errVarIntBufferTooShort` exactly when no byte ends the varint, `errVarIntTooLong` exactly when the terminal byte comes too late, otherwise a value below 2^64 (corrected guard) |
| Binary.ReadUvarintRoundTrip | src/multihash.cpp:34-44 | `uvarint` reads back an encoded value and leaves exactly the bytes after it |
| Binary.Uvarint | src/multihash.cpp:34-44 | on success the buffer becomes the bytes after the varint; on error the value is 0 and the buffer is unchanged |
| Binary.HexToBytes | src/multihash.cpp:48-57 | the text yields (n + 1) / 2 bytes for n one-byte characters |
| Binary.HexToBytesAt | src/multihash.cpp:50-53 | byte k is `strtol` of the piece of at most two characters starting at 2k |
| Binary.HexDigitsValue | src/multihash.cpp:50-53 | on hex digits, byte k is 16·d(hex[2k]) + d(hex[2k+1]), and a trailing odd digit is a byte of its own |
| Binary.HexToBytesCase | src/multihash.cpp:52 | writing the letters in uppercase gives the same bytes |
| Binary.HexRoundTrip | src/multihash.cpp:48-57 | lowercase hex text of any bytes decodes to those bytes |
| Binary.HexToBytesExamples | src/multihash.cpp:50-53 | "" gives [], "c" gives [0x0c], "abc" gives [0xab, 0x0c], "-f" gives [0xf1], "zz1g" gives [0x00, 0x01] |
| Binary.DecodeHex | src/multihash.cpp:48-57 | the loop returns exactly `HexToBytes` of the text |
| Decode.DecodeSpec | src/multihash.cpp:80-110 | `m` is kept on every error; `errTooShort` exactly when the buffer is shorter than 2; what is left of the buffer is a suffix of it; on success the code is registered, the hash function is the table's, the stored length equals the digest's size and the buffer holds the digest |
| Decode.DecodeInto | src/multihash.cpp:80-110 | the method's error, multihash and new buffer are `DecodeSpec` of the old buffer |
| Decode.Decode | src/multihash.cpp:65-69 | always returns a multihash: the decoded one, or the default on error |
| Decode.DecodeText | src/multihash.cpp:73-76 | decodes the bytes `decodeHex` makes of the text, starting from the default |
| Decode.DecodeTextInto | src/multihash.cpp:114-117 | decodes the bytes `decodeHex` makes of the text into `m` |
| Decode.DecodeSuccessSplits | src/multihash.cpp:89-108 | on success the buffer is the code's varint, the length's varint and the digest, and each varint decodes on its own to its field |
| Decode.CheckFields | src/multihash.cpp:99-108 | the digest is what remains; an error keeps `m` and is never `errTooShort`; success exactly when the declared length is the digest's size and the code is registered, and then the record holds the code, the table's function, the length and the digest |
| Decode.DecodeSuccessReads | src/multihash.cpp:89-108 | on success the code is the first varint's value, the length the second's, and the digest what follows the second varint |
| Decode.DecodeOfReads | src/multihash.cpp:99-109 | once both varints are read, the result depends only on the length check and then the code lookup |
| Decode.DecodeEncoded | src/multihash.cpp:89-109 | on an encoded code, length and digest, what remains is the length check and then the code lookup |
| Decode.DecodeRoundTrip | src/multihash.cpp:89-109 | an encoded registered code, length and digest decode to that multihash, and the buffer is left holding the digest |
| Decode.DecodeUnknownCode | src/multihash.cpp:103-106 | a well-formed multihash with an unregistered code gives `errUnknownHashCode` and leaves `m` unchanged |
| Decode.DecodeInconsistentLength | src/multihash.cpp:99-101 | a declared length different from the digest's size gives `errInconsistantLength`, whatever the code |
| Decode.DecodeTruncatedCode | src/multihash.cpp:89-92 | a buffer of two or more continuation bytes gives `errVarIntBufferTooShort` and is not consumed |
| Decode.DecodeTruncatedLength | src/multihash.cpp:94-97 | a buffer that ends inside the length varint gives `errVarIntBufferTooShort` after the code has been consumed |
| Decode.DecodeOverlongCode | src/multihash.cpp:89-92 | a code varint whose terminal byte is at index 10 or later gives `errVarIntTooLong` (corrected guard) |
| Decode.DecodeIgnoresTarget | src/multihash.cpp:65-69 | the error, the buffer left and a successful result do not depend on the multihash passed in |
| Decode.DecodeSha1 | src/multihash.cpp:80-110 | 0x11 0x14 and twenty digest bytes decode to SHA-1, code 0x11, length 20 |
| Decode.DecodeTruncatedCodeAlias | src/multihash.cpp:89-106 | 0x91 0x80 0x80 0x80 0x10 0x00 is refused as an unknown code, whereas the source's 32-bit reading of its code is SHA-1's registered 0x11, after which 0x00 reads as length 0 with nothing left and the constructor gives SHA-1 with an empty digest |
| Decode.AliasAcceptedAsWritten | src/multihash.cpp:94-108 | 0x11 is registered, the byte 0x00 reads as length 0 with nothing left, and the constructor builds SHA-1, code 0x11, length 0, empty digest |
| Decode.DecodeTextOfHex | src/multihash.cpp:114-117 | decoding the hex text of some bytes is decoding those bytes |
| Decode.DecodeShortText | src/multihash.cpp:81-83 | text of at most two characters gives `errTooShort` |

## Left out

- `operator<<` (include/multihash/multihash.h:115-119) is stream formatting and is not modelled.
- `encode` (include/multihash/multihash.h:124) is declared but never defined, so there is nothing to model. `EncodeVarint` and `HexOf` are reference encoders used only in round-trip lemmas.
- `Binary.UvarintAsWritten`: for shift amounts of 32 or more the C++ shift is undefined behaviour. The model takes the reading in which those high bits are lost, as with all bits at positions 32 and up.
- The `length` parameter of the `Multihash` constructor is a `size_t` stored into a 32-bit `UInt`. The `decodeHex` loop counter is also a `UInt`. The model uses unbounded integers for both, so it does not capture truncation for buffers or strings of 2^32 bytes or more.
- `Binary.BinUvarint` writes `x | (b & 0x7f) << s` as an addition. Each group lands above the bits already set, so the two agree; the bitwise identity itself is not proved.
- The exception `hash_by_code.at` throws for an unknown code is `None` in `Record.NewMultihash`. How the exception propagates is not modelled; `decode` never reaches it.
- Binary.UvarintOf: the corrected guard is stricter than the comment at src/multihash.cpp:10-13. It also reports overflow for encodings of eleven or more bytes whose value fits in 64 bits, such as ten 0x80 bytes and 0x00 (`Binary.ElevenByteZeroRefused`). Only one direction holds: a value of 64 bits or more is always refused (`Binary.UvarintFits64`).
- Binary.HexToBytes: a `string` stands for a `std::string` of one-byte characters, one Dafny `char` per byte. Text with characters above U+00FF, whose UTF-8 bytes `substr` would cut into other pieces, is not modelled.
- `strtol` is modelled for the C locale, on pieces of at most two characters, which is all `decodeHex` passes it.
- `errTooLong` and `errInvalidInput` are declared but never returned. The error message strings are not modelled; each error is a constructor.
- The tests that only call `FAIL()` (tests/multihash_test.cpp:53-59) have no content to model.
- `Bytes &` parameters are a `ByteBuf` object that the methods change. The `Multihash &` out-parameter is passed in and returned as a value.

## Findings

| source | as written | input that shows it | evidently intended | confidence | as-written member | corrected member |
|---|---|---|---|---|---|---|
| include/multihash/multihash.h:131-134 | `validate` returns `search == end()`, true for codes the table lacks | code 0x11 (SHA-1) gives false; code 0x01 gives true | true exactly for registered codes, the test `decode` makes at src/multihash.cpp:103-106 | high; not executed | Registry.ValidateIsInverted | Registry.RegisteredIffListed |
| src/multihash.cpp:21 | the overflow guard `i >= 9 && b > 1` lets a terminal 0 or 1 through at any index | ten 0x80 bytes and 0x01 are read as a value with count 11, although the varint spells 2^70 | overflow for every value over 64 bits, as the comment at src/multihash.cpp:10-13 promises. The correction is the ten-byte cap of Go's `binary.Uvarint`, guard `i > 9 \|\| (i == 9 && b > 1)`. It refuses every such value, and also every encoding of eleven or more bytes, even of a small value (`Binary.ElevenByteZeroRefused`) | high; not executed | Binary.ElevenByteVarintAccepted | Binary.UvarintFits64 |
| include/multihash/multihash.h:12 | the accumulator of `binUvarint` and the decoded code are a 32-bit `unsigned int` | 0x91 0x80 0x80 0x80 0x10 0x00 reads code 0x11 and decodes as SHA-1 with an empty digest | a 64-bit value, as the comment at src/multihash.cpp:32 says: code 0x1_0000_0011, refused as unknown | medium; not executed | Decode.DecodeTruncatedCodeAlias | Binary.UvarintRoundTrip |

The corrected readings are the ones the rest of the model uses:
- `Binary.UvarintOf` and `Binary.BinUvarint` use the guard `i > 9 || (i == 9 && b > 1)` and an unbounded accumulator.
- `Decode.DecodeSpec` tests a code with `Registry.IsRegistered` (`find(code) != end()`), as `decode` does.
