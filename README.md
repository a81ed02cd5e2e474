# Ad text encoding (defiads `Text`)

This project models the compact text encoding that defiads uses for
advertisement text (`src/text.rs`). A `Text` holds one flag byte followed by
a payload:

- bit 0 of the flag (`UTF_16`): the payload is UTF-16 little-endian rather
  than UTF-8;
- bit 1 of the flag (`COMPRESSED`): the payload is snappy-compressed.

`Text::new` encodes a string as both UTF-8 and UTF-16LE. It keeps UTF-8 only
when that is strictly shorter, so a tie picks UTF-16. It then compresses the
chosen bytes and keeps the compressed form only when that is strictly
shorter. `Text::as_string` undoes these steps.

Layout:

- `primitives.dfy`: `byte` and `u16` value types, plus `Option` and `Result`.
- `utf8.dfy`: UTF-8 per section 3 of RFC 3629. This is what `str::as_bytes`
  and `str::len` expose and what `String::from_utf8` accepts.
- `utf16.dfy`: UTF-16 per section 2 of RFC 2781. This is `str::encode_utf16`
  and `String::from_utf16`.
- `little_endian.dfy`: the `byteorder` `write_u16`/`read_u16` little-endian
  packing, as in section 3.1 of RFC 2781.
- `snappy.dfy`: the snappy library, given as a `Codec` value (a compress and
  a decompress function) that callers supply. The predicate `Inverts` states
  that decompression undoes compression. The round trip assumes this
  property and nothing else about snappy.
- `text.dfy`: the flag constants, the `Text` value, and the spec functions
  `EncodeText`/`DecodeText`. `New` and `AsString` are methods with the
  source's loops, proved equal to those spec functions. The file also holds
  the accessors and the round-trip lemma.

`Text` is never changed after it is built, so it is modelled as a datatype.
`SetFlag` computes `|=` on the flag as an 8-bit value. `HasFlag` tests bit 0
as `flag % 2 == 1` and bit 1 as `(flag / 2) % 2 == 1`, and its contract
proves that this agrees with the 8-bit `flag & bit != 0`. The cursor loop of `as_string` (src/text.rs:118-122) is its own
method, `ReadUnits`, which `AsString` calls.

## Model

| member | source | states |
|---|---|---|
| `Text.SetFlag` | src/text.rs:80-87 | `flag \|= bit` on 8 bits: afterwards the bit tests true, the other flag bit tests as before, and a flag below 4 stays below 4 |
| `Text.HasFlag` | src/text.rs:108-117 | the parity test on the flag byte holds exactly when the 8-bit `flag & bit` is non-zero, for both single-bit masks `UTF_16` and `COMPRESSED` |
| `Text.EncodeText` | src/text.rs:70-94 | the encoding is never empty and its first byte is the flag, with only bits 0 and 1 possible; `UTF_16` is set exactly when the UTF-8 length is at least the UTF-16LE length (ties pick UTF-16); `COMPRESSED` is set exactly when the compressed bytes are strictly shorter than the chosen raw bytes; the payload is the compressed bytes in that case and the raw bytes otherwise; the length is at most 1 + the UTF-8 length and at most 1 + the UTF-16LE length |
| `Text.Utf16Bytes` | src/text.rs:72-75 | the buffer holds two bytes per UTF-16 code unit of the string, and reading it back pair by pair gives exactly those code units |
| `Text.New` | src/text.rs:70-94 | the buffer filled one code unit at a time (low byte first), the encoding choice and the compression choice give exactly `EncodeText(s)` |
| `Text.FromEncoded` | src/text.rs:96-98 | the text stores exactly the given bytes, unchecked, so `as_bytes(from_encoded(b)) == b` |
| `Text.AsBytes` | src/text.rs:101-103 | `from_encoded` of the returned bytes rebuilds the same text, so the stored bytes are all the state a text has |
| `Text.Encoding` | src/text.rs:131-133 | the encoding byte is the first stored byte |
| `Text.Payload` | src/text.rs:108-116 | with bit 1 clear the payload is the bytes after the flag; with bit 1 set and a codec whose decompress inverts compress, the payload of compressed bytes is the bytes that were compressed |
| `Text.DecodeText` | src/text.rs:106-128 | the result is `DecompressFailed` exactly when bit 1 is set and decompression fails. It is `InvalidUtf16` exactly when bit 0 is set and no string has the unpacked code units as its UTF-16. It is `InvalidUtf8` exactly when bit 0 is clear and no string has the payload as its UTF-8. On success the decoded string encodes back to the unpacked units or the payload bytes |
| `Text.ReadUnits` | src/text.rs:118-122 | the cursor loop reads exactly the little-endian unpacking of the payload: whole byte pairs, with a trailing odd byte left unread |
| `Text.AsString` | src/text.rs:106-128 | decompress-if-flagged, then the UTF-16 cursor path or the UTF-8 path, returns exactly `DecodeText` of the stored bytes |
| `Text.RoundTrip` | src/text.rs:141-144 | if decompression inverts compression, decoding what `Text::new` stored gives back `Success(s)` for every string `s` |
| `Text.NewThenAsString` | src/text.rs:141-144 | the unit test's assertion: `Text::new(s).as_string()` succeeds and equals `s` |
| `Utf8.EncodeChar` | src/text.rs:76-77 | each scalar value takes 1 to 4 bytes, and takes one byte exactly when it is below U+0080 |
| `Utf8.Encode` | src/text.rs:76-77 | the UTF-8 length `s.len()` is between the number of characters and four times that number |
| `Utf8.DecodeOne` | src/text.rs:126 | a successful step consumes between 1 and 4 bytes of the input |
| `Utf8.Decode` | src/text.rs:126 | `String::from_utf8` accepts only canonical UTF-8: whatever it returns encodes back to exactly the input bytes (no overlong forms, surrogates or values above U+10FFFF get through) |
| `Utf8.DecodeEncode` | src/text.rs:126 | `String::from_utf8(s.as_bytes())` is `s` |
| `Utf8.DecodeIff` | src/text.rs:126 | `from_utf8(b) == Some(s)` exactly when `b` is the UTF-8 of `s` |
| `Utf8.DecodeFailure` | src/text.rs:126 | a `from_utf8` error means that no string has these bytes as its UTF-8 |
| `Utf16.EncodeChar` | src/text.rs:73 | a scalar value takes one unit exactly when it is below U+10000, and that unit is no surrogate; otherwise it takes a high surrogate followed by a low surrogate |
| `Utf16.Encode` | src/text.rs:73 | the number of code units is between the number of characters and twice that number |
| `Utf16.Decode` | src/text.rs:123 | `String::from_utf16` accepts only well-formed UTF-16: whatever it returns encodes back to exactly the input units, so unpaired surrogates are refused |
| `Utf16.DecodeEncode` | src/text.rs:123 | `String::from_utf16` of `s.encode_utf16()` is `s` |
| `Utf16.DecodeIff` | src/text.rs:123 | `from_utf16(u) == Some(s)` exactly when `u` is the UTF-16 of `s` |
| `Utf16.DecodeFailure` | src/text.rs:123 | a `from_utf16` error means that no string has these code units |
| `LittleEndian.UnitBytes` | src/text.rs:74 | a code unit becomes two bytes, low byte first, whose value is the unit |
| `LittleEndian.Pack` | src/text.rs:73-75 | the packed buffer has two bytes per code unit |
| `LittleEndian.Unpack` | src/text.rs:118-122 | unpacking yields one unit per whole byte pair |
| `LittleEndian.PackAppend` | src/text.rs:73-75 | packing distributes over concatenation, so the buffer filled unit by unit is the packing of all units |
| `LittleEndian.UnpackPack` | src/text.rs:118-122 | unpacking the packed units gives the units back |
| `LittleEndian.PackUnpack` | src/text.rs:118-122 | packing the unpacked units gives the input without its trailing odd byte |
| `LittleEndian.UnpackIgnoresOddByte` | src/text.rs:120 | a trailing odd byte does not change the unpacked units |

## Left out

- Snappy internals (`snap::Writer`, `snap::Reader`, src/text.rs:83-85 and 109-111) are not part of this model. The codec is a parameter. `Text.RoundTrip` needs only `Snappy.Inverts`, the property that decompress undoes compress.
- Rust's `Box<dyn Error>` values become the tags `DecompressFailed`, `InvalidUtf16` and `InvalidUtf8`. The error details (such as `valid_up_to`) are not modelled.
- `Text.AsString` and `Text.Encoding` require a non-empty buffer. The source indexes `encoded[0]` (src/text.rs:108 and 132) and panics on an empty buffer. Both `from_encoded(&[])` and the `Deserialize` derive (src/text.rs:25) can produce such a buffer.
- `unwrap()` on in-memory `Vec` writes (src/text.rs:74, 84-85) cannot fail, so these writes are total.
- The `Serialize`, `Deserialize`, `Debug` and `Clone` derives (src/text.rs:25) have no behaviour to model.
- The test's printed size percentage uses `f32` arithmetic (src/text.rs:145-148) and is not modelled. The example corpus (src/text.rs:153-196) is data only. `Text.NewThenAsString` states the test's assertion for every string and every codec that inverts.
- src/lib.rs holds only crate attributes and module declarations. The modules it declares (`iblt`, `ad`, `messages` and others) are not part of this model.
