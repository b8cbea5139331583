# Packet codec model

A Dafny model of the binary packet codec in `Packet/packet.rs`: a fixed
21-byte `PacketHeader` (message type `u8`, sequence `u32`, player id `u64`,
payload size `u32`, checksum `u32`, every multi-byte field little-endian)
followed by a variable-length payload, with an additive checksum over the
payload.

Files:

- `little_endian.dfy`, module `LittleEndian`: the byte and integer types
  (`u8`, `u32`, `u64` as subset types of `int`) and the little-endian
  conversions that `to_le_bytes` / `from_le_bytes` perform, with both
  round trips and the digit-by-digit meaning of the encoding.
- `packet.dfy`, module `PacketCodec`: the header codec, the checksum,
  `Packet::new`, and the packet codec. The two `to_bytes` methods build a
  buffer step by step in Rust; here they are methods that append to a
  local sequence, proved equal to the specification functions
  `EncodeHeader` / `EncodePacket`. The decoders, the checksum and `new` are
  functions, as they are expressions in Rust.
- `scenarios.dfy`, module `PacketScenarios`: the documented example packet
  and a few concrete cases (empty packet, reordered payload, truncated
  buffer).

The Rust `String` errors become the two constructors `InsufficientBytes` and
`PayloadSizeMismatch` of `PacketCodec.Error`.

The checksum field is written by `new` but never compared on decode
(`Packet/packet.rs:120-133`), so a decoded packet need not satisfy
`PacketCodec.Consistent`. The module documentation
(`Packet/packet.rs:4`) speaks of integrity checking through the checksum,
but `from_bytes` compares only the size field; the model follows the code
(`DecodeIgnoresChecksum`).

## Model

| member | source | states |
|---|---|---|
| `LittleEndian.FromLE` | Packet/packet.rs:78-81 | reading n bytes least-significant first gives a value below 256^n |
| `LittleEndian.ToLE` | Packet/packet.rs:58-61 | the n-byte encoding has exactly n bytes and reads back (FromLE) as the encoded value |
| `LittleEndian.ToLEFromLE` | Packet/packet.rs:78-81 | re-encoding a decoded byte string in the same width gives the same bytes |
| `LittleEndian.ToLEDigit` | Packet/packet.rs:58-61 | byte k of the encoding is digit k of the value in base 256 (least significant byte first) |
| `LittleEndian.LE32` | Packet/packet.rs:58 | `u32::to_le_bytes` yields 4 bytes that read back as the value |
| `LittleEndian.LE64` | Packet/packet.rs:59 | `u64::to_le_bytes` yields 8 bytes that read back as the value |
| `LittleEndian.FromLE32` | Packet/packet.rs:78 | `u32::from_le_bytes` of 4 bytes is the value whose encoding is those bytes |
| `LittleEndian.FromLE64` | Packet/packet.rs:79 | `u64::from_le_bytes` of 8 bytes is the value whose encoding is those bytes |
| `PacketCodec.EncodeHeader` | Packet/packet.rs:55-63 | an encoded header is always exactly 21 bytes |
| `PacketCodec.HeaderLayout` | Packet/packet.rs:55-63 | byte 0 is the message type; bytes 1..5, 5..13, 13..17, 17..21 are sequence, player id, payload size and checksum in little-endian and read back as those fields |
| `PacketCodec.HeaderToBytes` | Packet/packet.rs:55-63 | pushing the message type and extending with each field's bytes yields exactly the 21-byte header encoding |
| `PacketCodec.HeaderFromBytes` | Packet/packet.rs:72-90 | fails if and only if the input is shorter than 21 bytes, and then with InsufficientBytes; on success the first 21 input bytes are exactly the encoding of the decoded header |
| `PacketCodec.HeaderRoundTrip` | Packet/packet.rs:55-90 | decoding an encoded header succeeds and gives back the same header, field by field |
| `PacketCodec.HeaderEncodeInjective` | Packet/packet.rs:55-63 | two headers with equal encodings are equal |
| `PacketCodec.HeaderDecodeIgnoresTrailing` | Packet/packet.rs:72-81 | bytes after the first 21 do not affect header decoding |
| `PacketCodec.Checksum` | Packet/packet.rs:142-144 | the wrapping u32 fold over the payload equals the plain sum of the byte values modulo 2^32 (0 on an empty payload) |
| `PacketCodec.SumConcat` | Packet/packet.rs:143 | the byte sum of a concatenation is the sum of the parts' byte sums |
| `PacketCodec.SumPermutation` | Packet/packet.rs:143 | the byte sum depends only on the multiset of bytes |
| `PacketCodec.ChecksumPermutation` | Packet/packet.rs:142-144 | any rearrangement of the payload has the same checksum |
| `PacketCodec.ChecksumConcat` | Packet/packet.rs:142-144 | the checksum of a concatenation is the wrapping sum of the parts' checksums |
| `PacketCodec.New` | Packet/packet.rs:156-169 | keeps message type, sequence, player id and payload unchanged and makes the header consistent: payload size is the payload length, checksum is the payload checksum |
| `PacketCodec.EncodePacket` | Packet/packet.rs:107-111 | an encoded packet is 21 bytes longer than its payload |
| `PacketCodec.PacketToBytes` | Packet/packet.rs:107-111 | extending the header buffer with the payload yields the header encoding followed by exactly the payload |
| `PacketCodec.PacketFromBytes` | Packet/packet.rs:120-133 | InsufficientBytes below 21 bytes; PayloadSizeMismatch exactly when the size field (bytes 13..17) differs from the number of bytes after the header; success exactly otherwise, with the payload equal to every byte after the header, a size field equal to its length, and the packet re-encoding to the input |
| `PacketCodec.PacketRoundTrip` | Packet/packet.rs:107-133 | a packet whose size field matches its payload decodes from its own encoding to the same header and payload, whatever its checksum field |
| `PacketCodec.NewRoundTrip` | Packet/packet.rs:23-29 | every packet built by `new` decodes from its encoding to an equal header and payload |
| `PacketCodec.PaddedPacketRejected` | Packet/packet.rs:128-130 | extra bytes after an encoded packet make decoding fail with PayloadSizeMismatch |
| `PacketCodec.TruncatedPacketRejected` | Packet/packet.rs:128-130 | removing payload bytes from the end of an encoded packet makes decoding fail with PayloadSizeMismatch |
| `PacketCodec.DecodeIgnoresChecksum` | Packet/packet.rs:120-133 | overwriting the checksum bytes of a decodable buffer keeps it decodable with the same payload and the overwritten checksum: decode never checks the checksum |
| `PacketScenarios.DocumentedExample` | Packet/packet.rs:23-29 | `new(1, 42, 12345, [1,2,3,4,5])` has size 5, checksum 15, a 26-byte encoding, and decodes back to itself |
| `PacketScenarios.EmptyPacket` | Packet/packet.rs:156-169 | the packet with an empty payload has size and checksum 0, a 21-byte encoding, and decodes to an empty payload |
| `PacketScenarios.ChecksumOrderExample` | Packet/packet.rs:142-144 | `[1,2,3]` and `[3,2,1]` both have checksum 6 |
| `PacketScenarios.TruncatedExample` | Packet/packet.rs:128-130 | the documented example's encoding minus its last byte fails to decode with PayloadSizeMismatch |

## Left out

- New: requires a payload shorter than 2^32 bytes; the source's `payload.len() as u32` silently truncates longer lengths, which is not modelled.
- Checksum: models the release-build wrap-around of `sum()` on `u32`; the debug-build panic on overflow is not modelled.
- The text of the Rust error messages: the two error constructors carry no message.
- `#[derive(Debug)]` and the comparison of headers in the documentation example, which relies on an equality the source does not derive: Dafny's datatype equality is used instead.
- Transport, framing and any checksum verification on decode: the source has none.
- The `Vec<u8>` buffers of the two `to_bytes` methods are modelled as sequences; capacity and reallocation are not modelled.
