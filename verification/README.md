# pngme chunk codec in Dafny

A model of the byte-level chunk codec of `pngme`, a Rust tool that hides
messages in PNG files. It covers two source files.

- `src/chunk_type.rs`: the four-letter chunk type. Its property bits are read
  from letter case (section 5.4 of the PNG specification, "Chunk naming
  conventions"). It is built from a `[u8; 4]`, a `Vec<u8>` or a string, and
  printed back as text.
- `src/chunk.rs`: the chunk itself, a type, a payload and a CRC.
  - The CRC is CRC-32 with the ISO-HDLC parameters (section 5.5), computed
    over the type bytes followed by the payload.
  - `as_bytes` lays a chunk out as in section 5.3.
  - `TryFrom<&[u8]>` parses a slice and checks it.

The project has these modules, one file each.

| file | module | what it holds |
|---|---|---|
| `wrappers.dfy` | `Wrappers` | `Result` |
| `bytes.dfy` | `Bytes` | `u8`, `u32`, `to_be_bytes`, `from_be_bytes`, `from_le_bytes`, the `as u32` cast |
| `utf8.dfy` | `Utf8` | the UTF-8 encoding of a string, as `str::bytes` yields it |
| `crc32.dfy` | `Crc32` | bit-serial CRC-32, its streaming law, its check value, and single-byte error detection |
| `chunk_type.dfy` | `ChunkTypes` | `ChunkType`, its conversions and case tests, and the unit-test examples of `src/chunk_type.rs` |
| `chunk.dfy` | `Chunks` | `Chunk`, `crc_checksum`, `new`, `into`, `as_bytes`, `TryFrom<&[u8]>`, and the round-trip and corruption lemmas |
| `chunk_tests.dfy` | `ChunkTests` | the fixtures of the unit tests of `src/chunk.rs`: type "RuSt", the 42-byte secret message, CRC 2882656334 |

How the model represents the source:

- Every part of the core is a value that is never updated, so `ChunkType`
  and `Chunk` are datatypes and the operations are functions.
- `as_bytes` builds its buffer by four successive `extend` calls. It is a
  method that appends to a sequence in the same order.
- The `TryFrom<&[u8]>` parser keeps the source's pipeline:
  - `skip(8).take(length)` takes *up to* `length` payload bytes;
  - the CRC is read from the **last four bytes of the slice**, reversed and
    read little-endian;
  - the chunk is rebuilt with `new`.

  `Accepts` states the accepted slices independently of those steps:
  - at least 12 bytes;
  - letters at offsets 4..8;
  - `8 + length` bytes at least;
  - the CRC-32 of bytes `4..8+length` equal to the big-endian number in the
    last four bytes.

  `TryFrom` is proved to succeed exactly on those slices.

The unit-test fixture is consistent as written. The message "This is where
your secret message will be!" is 42 bytes long: its UTF-8 encoding is proved
equal to the byte fixture `SecretMessage` (`ChunkTests.SecretMessageIsText`).
Its length field 42 and its CRC 2882656334 over "RuSt" plus the message are
both proved (`ChunkTests`).

## Model

| member | source | states |
|---|---|---|
| `ChunkTypes.AllLettersIff` | src/chunk_type.rs:40-43 | the `iter().all` letter test holds exactly when every byte is in `A..=Z` or `a..=z` |
| `ChunkTypes.TryFromArray` | src/chunk_type.rs:39-52 | succeeds iff all four bytes are ASCII letters; on success `bytes()` returns the input unchanged; on failure the error is built from the input bytes |
| `ChunkTypes.TryFromVec` | src/chunk_type.rs:67-74 | any length other than 4 is an error carrying the input; otherwise succeeds iff all four bytes are letters, keeping them |
| `ChunkTypes.FromStrBytes` | src/chunk_type.rs:80-83 | the UTF-8 bytes of a string are four letters iff the string is four letter characters, and then each byte is its character's code point |
| `ChunkTypes.FromStr` | src/chunk_type.rs:80-83 | succeeds iff the string is exactly four ASCII letters (a non-ASCII character can never pass), and then prints back as the same string |
| `ChunkTypes.FromStrCode` | src/chunk_type.rs:80-83 | the bytes of a type parsed from text are the text's code points |
| `ChunkTypes.ToStringRoundTrip` | src/chunk_type.rs:30-34 | printing any chunk type and parsing the text gives the same chunk type back |
| `ChunkTypes.PropertyBitsFromCase` | src/chunk_type.rs:13-24 | critical, public and reserved-bit-valid hold iff bit 5 of byte 0, 1, 2 is clear (upper case); safe-to-copy holds iff bit 5 of byte 3 is set (lower case), as section 5.4 defines them |
| `ChunkTypes.ValidityIsThirdLetter` | src/chunk_type.rs:25-27 | validity is decided by the case of byte 2 alone: types agreeing on byte 2 agree on validity, which holds iff that byte is upper case |
| `ChunkTypes.IsIendIff` | src/chunk_type.rs:10-12 | the text comparison with "IEND" holds iff the bytes are exactly 73, 69, 78, 68 |
| `ChunkTypes.EqualIffSameBytes` | src/chunk_type.rs:3-4 | two chunk types are equal iff their four bytes are equal |
| `ChunkTypes.ConversionExamples` | src/chunk_type.rs:93-174 | `try_from([82,117,83,116])` succeeds with those bytes, equals `from_str("RuSt")`, and prints as "RuSt"; "Ru1t" is refused |
| `ChunkTypes.RuStProperties` | src/chunk_type.rs:107-159 | "RuSt" is critical, not public, reserved-bit valid, safe to copy and valid |
| `ChunkTypes.AncillaryExample` | src/chunk_type.rs:113-117 | "ruSt" parses and is not critical |
| `ChunkTypes.PublicExample` | src/chunk_type.rs:119-123 | "RUSt" parses and is public |
| `ChunkTypes.ReservedBitExample` | src/chunk_type.rs:137-141 | "Rust" parses but its reserved bit is set, so it is not valid |
| `ChunkTypes.UnsafeToCopyExample` | src/chunk_type.rs:149-153 | "RuST" parses and is not safe to copy |
| `Utf8.EncodeChar` | src/chunk_type.rs:81 | a character encodes to 1 to 4 bytes; an ASCII character to its own code point; any other character to bytes that are all 0x80 or more |
| `Utf8.EncodeAscii` | src/chunk_type.rs:81 | an ASCII string's bytes are its code points, one per character |
| `Utf8.EncodeNonAscii` | src/chunk_type.rs:81 | a string holding a non-ASCII character has a byte of 0x80 or more among its bytes |
| `Bytes.TruncateToU32` | src/chunk.rs:54 | the `as u32` cast keeps lengths below 2^32 and otherwise keeps the value modulo 2^32 |
| `Bytes.BeRoundTrip` | src/chunk.rs:56-59 | `from_be_bytes(to_be_bytes(x)) == x` for every `u32` |
| `Bytes.BeEncodeOfDecode` | src/chunk.rs:79-80 | `to_be_bytes(from_be_bytes(b)) == b` for every four bytes |
| `Bytes.BeDecodeInjective` | src/chunk.rs:79-80 | different four-byte fields are read as different lengths |
| `Bytes.LeOfReversedIsBe` | src/chunk.rs:92-101 | reading four reversed bytes little-endian equals reading the original bytes big-endian |
| `Crc32.UpdateAppend` | src/chunk.rs:21-27 | the CRC register after `a ++ b` is the register after `a`, then fed `b` |
| `Crc32.CheckValue` | src/chunk.rs:25 | the ISO-HDLC check value: CRC-32 of "123456789" is 0xCBF43926 |
| `Crc32.UpdateKeepsDifference` | src/chunk.rs:25-26 | two different registers stay different whatever bytes both are fed |
| `Crc32.UpdateByteSeparates` | src/chunk.rs:25-26 | one register fed two different bytes gives two different registers |
| `Crc32.SingleByteErrorDetected` | src/chunk.rs:25-26 | changing any single byte of a message changes its CRC-32 |
| `Chunks.CrcChecksumStreams` | src/chunk.rs:21-27 | `crc_checksum` equals the CRC of a register fed the type bytes and then the payload |
| `Chunks.New` | src/chunk.rs:29-39 | never fails; keeps type and payload; `length()` is the payload size; the stored CRC is `crc_checksum(type, data)` |
| `Chunks.IntoPair` | src/chunk.rs:14-18 | the pair's first component is the chunk's own type and its second the chunk itself |
| `Chunks.AsBytes` | src/chunk.rs:51-62 | the buffer is exactly the big-endian `as u32` length, the type bytes, the payload and the big-endian CRC, and has `12 + length()` bytes |
| `Chunks.RevTake` | src/chunk.rs:92-99 | `rev().take(k)` yields `min(k, len)` bytes, the last one first |
| `Chunks.CrcFieldIsBigEndian` | src/chunk.rs:92-101 | the CRC the parser reads is the big-endian number in the slice's last four bytes |
| `Chunks.PayloadTaken` | src/chunk.rs:85-90 | `skip(8).take(n)` has `n` bytes iff the slice has `8 + n` bytes, and is then bytes `8..8+n` |
| `Chunks.AcceptsWhen` | src/chunk.rs:85-104 | the parser's final test (full payload and matching CRC) holds exactly when `Accepts` does |
| `Chunks.TryFrom` | src/chunk.rs:75-110 | succeeds iff `Accepts`; a parsed chunk satisfies `crc == crc_checksum(type, data)`, its type is bytes 4..8, its length is the declared one, and its data is bytes `8..8+length` |
| `Chunks.HeaderChecks` | src/chunk.rs:76-83 | slices shorter than 12 bytes, and slices whose bytes 4..8 are not all letters, are refused |
| `Chunks.ParsesTo` | src/chunk.rs:75-110 | a slice whose header, payload and last four bytes are a consistent chunk's parses to that chunk |
| `Chunks.RoundTrip` | src/chunk.rs:51-110 | `try_from(c.as_bytes())` gives back `c` for every chunk built by `new` or by a parse, with a payload under 2^32 bytes |
| `Chunks.CorruptedCrcRejected` | src/chunk.rs:101-107 | replacing the CRC field of an encoding with any other value makes the parse fail |
| `Chunks.CorruptedByteRejected` | src/chunk.rs:102-107 | changing any one type or payload byte of an encoding makes the parse fail |
| `Chunks.CrcReadFromSliceEnd` | src/chunk.rs:92-101 | bytes inserted between the payload and the final CRC are ignored: such a slice still parses to the chunk |
| `Chunks.LongPayloadNotRecovered` | src/chunk.rs:54 | a chunk with a payload of 2^32 bytes or more does not parse back from its own encoding, because the length field is truncated |
| `Utf8.EncodeAppend` | src/chunk_type.rs:81 | the bytes of `a ++ b` are the bytes of `a` followed by the bytes of `b` |
| `ChunkTests.SecretMessageIsText` | src/chunk.rs:122 | the UTF-8 bytes of "This is where your secret message will be!" are exactly the 42-byte fixture |
| `ChunkTests.SourceTestChecksum` | src/chunk.rs:137-146 | the CRC of type "RuSt" with the 42-byte message is 2882656334 |
| `ChunkTests.SourceTestLayout` | src/chunk.rs:184-198 | the test's assembled bytes are the wire encoding of the test chunk with the given CRC |
| `ChunkTests.SourceTestChunks` | src/chunk.rs:184-230 | `new` gives length 42 and CRC 2882656334; the assembled bytes parse to that chunk, whose type prints "RuSt"; with CRC 2882656333 they are refused |

## Left out

- `src/png.rs` is not part of this model. It holds the PNG container: the
  signature check and the chunk list (`append_chunk`, `remove_chunk`,
  `chunk_by_type`).
- `src/main.rs` is file I/O, console output and command dispatch. It builds a
  chunk from the message bytes with `Chunk::new`, calls the `Png` container's
  operations (`try_from`, `append_chunk`, `remove_chunk`, `chunk_by_type`,
  `chunks`, `as_bytes`), and prints each payload through `data_as_string`,
  or a fixed placeholder text when the payload is not UTF-8.
- `src/args.rs` declares the command line; it parses a chunk type with
  `ChunkType::from_str`.
- `data_as_string` and the `Display` of `Chunk`: these are UTF-8 decoding by
  the standard library. The payload is kept as bytes.
- The `Display` of `ChunkType` is modelled as the identity from bytes to
  characters. This is exact for the letter-only codes a `ChunkType` can
  hold, so the lossy UTF-8 decoding is not modelled.
- The error values:
  - `InvalidChunkType` keeps the rejected bytes, not the text
    `from_utf8_lossy` makes of them, and its message format is left out;
  - the unit error of `Chunk::try_from` is the single value
    `MalformedChunk`.
- The `crc` crate computes CRC-32 from a table. The model uses the equivalent
  bit-serial definition with the same parameters. The proved check value ties
  it to the ISO-HDLC parameter set.
- The accessors `crc()` and `chunk_type()` are the datatype's fields.
  `length()` is `Chunk.Length`.
- Chunks.RoundTrip: proved only for payloads under 2^32 bytes, because
  `as_bytes` truncates the length with `as u32`.
  `Chunks.LongPayloadNotRecovered` shows the round trip fails above that.
- Chunks.CrcChecksum: modelled as a function building the `type ++ data`
  buffer in one step, not as two `extend` calls. Its properties are the
  lemmas `CrcChecksumStreams`, `SingleByteErrorDetected` and
  `CorruptedByteRejected`.
