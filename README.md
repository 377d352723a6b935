# PNG chunk codec

A Dafny model of the chunk layer of PNGMe, a Rust tool that hides messages
in PNG files. The layer has two parts.

- **Chunk type** (`src/chunk_type.rs`). This is the four-byte tag of section
  5.4 of the PNG Specification. Every byte must be an ASCII letter, and
  bit 5 (0x20) of each byte carries one property: critical, public,
  reserved-bit-valid or safe-to-copy.
- **Chunk** (`src/chunk.rs`). This is a tag plus its data, and the frame
  codec of section 5.3 of the PNG Specification: a 4-byte big-endian
  length, the 4 type bytes, the data, then a 4-byte big-endian CRC-32 of
  type and data.
  - `as_bytes` serializes the frame.
  - `try_from(&[u8])` parses it with a fixed sequence of `split_at` steps
    and checks the CRC.

Both files are pure, so the model uses datatypes, functions and lemmas.

Modules:

- `Wrappers` (`wrappers.dfy`): `Option` and `Result`.
- `ByteValues` (`byte_values.dfy`): a `u8` as `bv8`, and the byte of a
  given value.
- `BigEndian` (`big_endian.dfy`): `[u8; 4]` as `Bytes4`, `u32` as `U32`
  (a natural below 2^32, with `U32Range` the modulus of an `as u32` cast),
  and `to_be_bytes` / `from_be_bytes`.
- `Utf8` (`utf8.dfy`): the UTF-8 encoding of a string (RFC 3629,
  section 3). It is needed because `from_str` checks `s.len()`, which is a
  byte count, and then reads `s.as_bytes()`.
- `Crc32` (`crc32.dfy`): the CRC-32 of section 5.5 of the PNG
  Specification. It is written out bit by bit, with the reflected
  polynomial 0xEDB88320 and the register preset to and complemented with
  all ones. This is the value `crc32fast::hash` returns.
- `ChunkTypes` (`chunk_type.dfy`): `ChunkType`, its accessors, `try_from`
  and `from_str`.
- `Chunks` (`chunk.dfy`): `Chunk`, `ChunkError`, `length`, `crc`,
  `as_bytes` and `try_from`.
  - The parser's result is `ParseOutcome`: a chunk, an error, or
    `Panicked`. `Panicked` stands for the Rust panic inside `split_at`
    when the declared data plus the four CRC bytes run past the end of the
    input.
  - `FrameSpec` is an independent field-by-field reading of the frame
    format. The parser is proved equal to it, and every parser property is
    derived from that equality.
- `UnitCases` (`unit_cases.dfy`): the repository's unit tests as lemmas.
  They include the concrete CRC 2882656334 of the test chunk.

## Model

| member | source | states |
|---|---|---|
| ChunkTypes.IsAsciiLetter | src/chunk_type.rs:119 | the byte test of `try_from` accepts exactly 0x41..0x5A and 0x61..0x7A; the gap 91..96 is refused |
| ChunkTypes.TryFrom | src/chunk_type.rs:117-165 | succeeds iff every byte is an ASCII letter; every failure is `InvalidByte`; on success the tag satisfies the invariant (text spells the bytes, flags read off bit 5) and `bytes()` is the input |
| ChunkTypes.ChunkType.Bytes | src/chunk_type.rs:16-18 | the four bytes of a tag are ASCII letters |
| ChunkTypes.ChunkType.IsCritical | src/chunk_type.rs:20-22 | holds iff bit 5 of byte 0 is clear, i.e. iff the first letter is upper case (decoding at 137-140) |
| ChunkTypes.ChunkType.IsPublic | src/chunk_type.rs:24-26 | holds iff bit 5 of byte 1 is clear (upper-case second letter), despite the swapped enum names at 142-145 |
| ChunkTypes.ChunkType.IsReservedBitValid | src/chunk_type.rs:28-30 | holds iff bit 5 of byte 2 is clear (upper-case third letter) |
| ChunkTypes.ChunkType.IsSafeToCopy | src/chunk_type.rs:32-34 | holds iff bit 5 of byte 3 is set (lower-case fourth letter) |
| ChunkTypes.ChunkType.IsValid | src/chunk_type.rs:36-38 | equals `is_reserved_bit_valid()`: only the third byte's bit 5 is consulted |
| ChunkTypes.ChunkType.ToString | src/chunk_type.rs:40-42 | four characters whose codes are the four bytes, case preserved |
| ChunkTypes.FromStr | src/chunk_type.rs:171-184 | a string whose UTF-8 byte length is not 4 gives `WrongLength`; otherwise the result is `try_from` of its four bytes |
| ChunkTypes.FromStrAccepts | src/chunk_type.rs:171-184 | `from_str` succeeds iff the string is four ASCII letters; `WrongLength` iff its byte length is not 4, so a non-ASCII four-byte string fails with `InvalidByte` |
| ChunkTypes.NonLetterRefused | src/chunk_type.rs:118-127 | a four-character ASCII string with any non-letter is refused with `InvalidByte` |
| ChunkTypes.TryFromOwnBytes | src/chunk_type.rs:130-164 | every valid tag is exactly what `try_from` builds from its bytes: text and flags are functions of the bytes |
| ChunkTypes.EqualIffSameBytes | src/chunk_type.rs:5-13 | the derived `Eq` over all six fields holds for two valid tags iff their bytes are equal |
| ChunkTypes.FromStrThenToString | src/chunk_type.rs:40-42 | text to tag and back: a string `from_str` accepts is what `to_string` returns |
| ChunkTypes.ToStringThenFromStr | src/chunk_type.rs:171-184 | tag to text and back: `from_str(t.to_string())` rebuilds `t` |
| ChunkTypes.ByteChar | src/chunk_type.rs:130-135 | `value[i] as char`: the character's code point is the byte's value, so `to_string` spells the bytes |
| Utf8.Encode | src/chunk_type.rs:172-175 | `s.as_bytes()`: never shorter than the string; an ASCII string is encoded byte for byte; any other string contains a byte >= 0x80 |
| BigEndian.FromBeBytes | src/chunk.rs:84 | `from_be_bytes`: the four bytes are the value's base-256 digits, most significant first |
| BigEndian.ToBeBytes | src/chunk.rs:60-61 | `to_be_bytes` is inverted by `from_be_bytes` |
| BigEndian.ToFromBeBytes | src/chunk.rs:84 | `to_be_bytes(from_be_bytes(s)) == s` for every four bytes |
| BigEndian.FromBeBytesInjective | src/chunk.rs:103 | distinct four-byte fields decode to distinct `u32` values |
| Crc32.UpdateAppend | src/chunk.rs:56 | absorbing a concatenation is absorbing its parts in turn |
| Crc32.UpdateInjective | src/chunk.rs:56 | two different registers stay different after absorbing the same bytes |
| Crc32.SingleByteChangeDetected | src/chunk.rs:56 | two inputs that differ in exactly one byte have different checksums |
| Crc32.ChecksumInjective | src/chunk.rs:56 | the final complement and the reading of the register as `u32` lose nothing |
| Crc32.CheckValue | src/chunk.rs:56 | the checksum of "123456789" is 0xCBF43926, the standard check value of this CRC |
| Chunks.Chunk.Length | src/chunk.rs:31-33 | `length()` is the data length whenever that is below 2^32 |
| Chunks.Chunk.AsBytes | src/chunk.rs:59-68 | the frame is `12 + |data|` bytes: big-endian length, type bytes, data, big-endian CRC, each at its offset |
| Chunks.SplitAt | src/chunk.rs:96 | `split_at(mid)` succeeds iff `mid <= len`, and its halves concatenate to the input with the first of length `mid` |
| Chunks.TryIntoArray | src/chunk.rs:80-83 | slice to `[u8; 4]` succeeds exactly on four-byte slices and keeps the bytes |
| Chunks.TryFrom | src/chunk.rs:74-117 | a parsed chunk has a valid tag; the only errors ever returned are `DataSampleSmall`, `ParsingChunkType` and `CrcNotMatching`, so `ParsingDataLength`, `ParsingDataType` and `ParsingCrc` are unreachable |
| Chunks.ParseBody | src/chunk.rs:96-116 | a parsed chunk has a valid tag; the only error after the type field is `CrcNotMatching` |
| Chunks.ParseBodySpec | src/chunk.rs:96-116 | after the type field: a panic iff fewer than `N + 4` bytes remain, otherwise the chunk of the first `N` bytes if the next four hold its CRC, else `CrcNotMatching(stored, computed)` |
| Chunks.TryFromHead | src/chunk.rs:75-94 | on inputs of at least 12 bytes, the length field is bytes 0..4 and the type field bytes 4..8; a type field with a non-letter fails with `ParsingChunkType(InvalidByte)` |
| Chunks.FramedChunk | src/chunk.rs:105-108 | the chunk a complete frame describes has a valid tag whose bytes are `input[4..8]` and exactly the declared number of data bytes |
| Chunks.TryFromMatchesSpec | src/chunk.rs:74-117 | `try_from` equals the field-by-field frame reading `FrameSpec` on every input |
| Chunks.TryFromTooShort | src/chunk.rs:75-77 | `DataSampleSmall(len)` is returned iff the input is shorter than 12 bytes |
| Chunks.TryFromBadType | src/chunk.rs:86-94 | on inputs of at least 12 bytes, `ParsingChunkType` is returned iff bytes 4..8 are not all ASCII letters; the reserved bit is not checked |
| Chunks.TryFromPanics | src/chunk.rs:96-98 | `try_from` panics iff the type field is fine but the declared data plus the four CRC bytes run past the end |
| Chunks.TryFromParsed | src/chunk.rs:79-116 | a chunk is returned iff the frame is complete, the type is four letters and the stored CRC matches; it is then the chunk with type `input[4..8]` and data `input[8..8+N]` |
| Chunks.TryFromCrcMismatch | src/chunk.rs:110-114 | a complete frame whose stored CRC differs reports `CrcNotMatching(stored, computed)` |
| Chunks.FrameWith | src/chunk.rs:59-68 | the frame of a chunk with a chosen CRC field is `as_bytes()` when that field holds the chunk's CRC |
| Chunks.ParseFrameWith | src/chunk.rs:74-117 | parsing a chunk's frame, with anything appended, gives the chunk if the CRC field is right, else `CrcNotMatching` with both values |
| Chunks.ParseAsBytes | src/chunk.rs:59-68 | round trip: `try_from(as_bytes() ++ suffix)` returns the same chunk for every valid tag (reserved bit set or not) and data below 2^32 bytes |
| Chunks.CorruptedCrcRejected | src/chunk.rs:110-114 | a frame whose CRC field was altered is refused with both CRC values |
| Chunks.CrcCoversTypeAndData | src/chunk.rs:47-57 | `crc()` is a function of the type bytes and the data alone, and two chunks of the same type whose data differ in one byte have different CRCs |
| Chunks.CorruptedDataRejected | src/chunk.rs:47-57 | altering one data byte changes `crc()`, so the original frame's CRC field no longer matches and parsing fails |
| Chunks.FramedFields | src/chunk.rs:79-108 | each field of a complete frame is what the described chunk would write there |
| Chunks.ParsedReserializes | src/chunk.rs:105-116 | parse then serialize: a parsed chunk's `as_bytes()` equals the input up to the end of its CRC field |
| Chunks.FramedReserializes | src/chunk.rs:59-68 | a complete frame with a matching CRC is the `as_bytes()` of the chunk it describes |
| Chunks.TrailingBytesIgnored | src/chunk.rs:98 | bytes after the CRC field are never read: unless the input is too short or parsing panics, appending bytes leaves the outcome unchanged |
| UnitCases.ChunkTypeFromBytesAndStr | src/chunk_type.rs:194-206 | `try_from([82,117,83,116])` succeeds with those bytes and equals `from_str("RuSt")` |
| UnitCases.RuStFlags | src/chunk_type.rs:209-260 | "RuSt" is critical, not public, reserved-bit-valid, safe to copy and valid |
| UnitCases.LowerFirstLetterNotCritical | src/chunk_type.rs:215-218 | "ruSt" is not critical |
| UnitCases.UpperSecondLetterPublic | src/chunk_type.rs:221-224 | "RUSt" is public |
| UnitCases.LowerThirdLetterInvalid | src/chunk_type.rs:239-266 | "Rust" is neither reserved-bit-valid nor valid |
| UnitCases.UpperFourthLetterUnsafe | src/chunk_type.rs:251-254 | "RuST" is not safe to copy |
| UnitCases.DigitRefused | src/chunk_type.rs:267-268 | `from_str("Ru1t")` fails with `InvalidByte` |
| UnitCases.TagString | src/chunk_type.rs:272-275 | `from_str("RuSt").to_string()` is "RuSt" |
| UnitCases.MessageChecksum | src/chunk.rs:187 | the CRC-32 of "RuSt" followed by the test message is 2882656334 |
| UnitCases.NewChunk | src/chunk.rs:180-188 | the test chunk has length 42 and CRC 2882656334 |
| UnitCases.TestFrameParses | src/chunk.rs:161-177 | the test frame with any CRC field parses against the computed CRC 2882656334 |
| UnitCases.ValidChunkFromBytes | src/chunk.rs:217-241 | the test frame with CRC 2882656334 parses to the chunk of length 42, type "RuSt" and CRC 2882656334 |
| UnitCases.InvalidChunkFromBytes | src/chunk.rs:244-262 | the same frame with CRC 2882656333 is refused with `CrcNotMatching(2882656333, 2882656334)` |

## Left out

- `Chunk::data_as_string` (src/chunk.rs:43-45) and the test that reads the data back as text: UTF-8 decoding by the standard library is not part of this model.
- The `Display` impls and all error-message text (src/chunk.rs:16-24, 130-151; src/chunk_type.rs:45-52, 78-112): formatting only.
- `ChunkTypes.TryFrom`: the error is the enum value `InvalidByte`, not the source's `&'static str` message. `ChunkTypes.FromStr` likewise gives `WrongLength`. `ParsingChunkType` carries that enum value.
- The private two-variant enums (src/chunk_type.rs:54-76) are collapsed to booleans with the polarity of their accessors.
- `Chunk::new`, `chunk_type()` and `data()` are the datatype's constructor and fields.
- `Chunks.Chunk.Length`: the value is stated only for data shorter than 2^32 bytes. Beyond that the model wraps modulo 2^32, as the `as u32` cast does. The round-trip lemmas require `|data| < 2^32`.
- `Chunks.TryFrom`: a Rust panic in `split_at` is the `Panicked` outcome; unwinding is not modelled.
- `Chunks.Chunk.Crc`: has no contract of its own; what callers rely on is stated by `Chunks.CrcCoversTypeAndData` (a function of type bytes and data, sensitive to every single data byte), `Chunks.CorruptedDataRejected` and the concrete value in `UnitCases.NewChunk`.
- `Crc32.Checksum`: has no contract of its own; its meaning is stated by `Crc32.SingleByteChangeDetected`, `Crc32.ChecksumInjective`, `Crc32.CheckValue` and `UnitCases.MessageChecksum`. Only the value of `crc32fast::hash` is modelled. Its table-driven and SIMD implementation is replaced by the bitwise definition, and the equivalence of the table-driven form is not proved.
- src/args.rs (command-line parsing through clap) is not part of this model.
