/** The packet codec: a fixed 21-byte header (message type, sequence number,
    player id, payload size, checksum) followed by a variable-length payload.

    Wire layout, all multi-byte fields little-endian:
      offset 0   1 byte   message type
      offset 1   4 bytes  sequence
      offset 5   8 bytes  player id
      offset 13  4 bytes  payload size
      offset 17  4 bytes  checksum
      offset 21  N bytes  payload (N = payload size)
 */
module PacketCodec {
  import opened LittleEndian

  /** Length of an encoded header. */
  const HeaderSize: nat := 21

  /** 2^32: the modulus of 32-bit wrap-around. */
  const U32Modulus: nat := 0x1_0000_0000

  datatype Header = Header(
    messageType: u8,
    sequence: u32,
    playerId: u64,
    payloadSize: u32,
    checksum: u32)

  datatype Packet = Packet(header: Header, payload: seq<u8>)

  /** The two ways decoding can fail. */
  datatype Error = InsufficientBytes | PayloadSizeMismatch

  datatype Result<T> = Ok(value: T) | Err(error: Error)

  // ---------------------------------------------------------------------
  // Header codec
  // ---------------------------------------------------------------------

  /** The header's wire form: the five fields in order, each little-endian. */
  function EncodeHeader(h: Header): (r: seq<u8>)
    ensures |r| == HeaderSize
  {
    [h.messageType] + LE32(h.sequence) + LE64(h.playerId)
      + LE32(h.payloadSize) + LE32(h.checksum)
  }

  /** Where each field sits in the encoded header, and what it reads back as. */
  lemma HeaderLayout(h: Header)
    ensures EncodeHeader(h)[0] == h.messageType
    ensures EncodeHeader(h)[1..5] == LE32(h.sequence)
    ensures EncodeHeader(h)[5..13] == LE64(h.playerId)
    ensures EncodeHeader(h)[13..17] == LE32(h.payloadSize)
    ensures EncodeHeader(h)[17..21] == LE32(h.checksum)
    ensures FromLE(EncodeHeader(h)[1..5]) == h.sequence
    ensures FromLE(EncodeHeader(h)[5..13]) == h.playerId
    ensures FromLE(EncodeHeader(h)[13..17]) == h.payloadSize
    ensures FromLE(EncodeHeader(h)[17..21]) == h.checksum
  {
    var e := EncodeHeader(h);
    assert e == [h.messageType] + LE32(h.sequence) + LE64(h.playerId)
      + LE32(h.payloadSize) + LE32(h.checksum);
  }

  /** `PacketHeader::to_bytes`: pushes the message type into an empty buffer,
      then extends it with each field's little-endian bytes. */
  method HeaderToBytes(h: Header) returns (buffer: seq<u8>)
    ensures buffer == EncodeHeader(h)
    ensures |buffer| == HeaderSize
  {
    buffer := [];
    buffer := buffer + [h.messageType];
    buffer := buffer + LE32(h.sequence);
    buffer := buffer + LE64(h.playerId);
    buffer := buffer + LE32(h.payloadSize);
    buffer := buffer + LE32(h.checksum);
  }

  /** `PacketHeader::from_bytes`: fails exactly on buffers shorter than a
      header; otherwise reads the fields by position from the first 21 bytes,
      and those 21 bytes are exactly the encoding of the header it returns. */
  function HeaderFromBytes(bytes: seq<u8>): (r: Result<Header>)
    ensures r.Err? <==> |bytes| < HeaderSize
    ensures r.Err? ==> r.error == InsufficientBytes
    ensures r.Ok? ==> EncodeHeader(r.value) == bytes[..HeaderSize]
  {
    if |bytes| < HeaderSize then Err(InsufficientBytes)
    else
      var h := Header(
        bytes[0],
        FromLE32(bytes[1..5]),
        FromLE64(bytes[5..13]),
        FromLE32(bytes[13..17]),
        FromLE32(bytes[17..21]));
      assert bytes[..HeaderSize] == [bytes[0]] + bytes[1..5] + bytes[5..13]
        + bytes[13..17] + bytes[17..21];
      Ok(h)
  }

  /** Header round trip: decoding an encoded header gives it back. */
  lemma HeaderRoundTrip(h: Header)
    ensures HeaderFromBytes(EncodeHeader(h)) == Ok(h)
  {
    var r := HeaderFromBytes(EncodeHeader(h));
    assert EncodeHeader(r.value) == EncodeHeader(h);
    HeaderEncodeInjective(r.value, h);
  }

  /** Two headers with the same encoding are the same header. */
  lemma HeaderEncodeInjective(h1: Header, h2: Header)
    requires EncodeHeader(h1) == EncodeHeader(h2)
    ensures h1 == h2
  {
    HeaderLayout(h1);
    HeaderLayout(h2);
  }

  /** Header decoding reads only the first 21 bytes: anything after them
      does not affect the result. */
  lemma HeaderDecodeIgnoresTrailing(bytes: seq<u8>, trailing: seq<u8>)
    requires |bytes| >= HeaderSize
    ensures HeaderFromBytes(bytes + trailing) == HeaderFromBytes(bytes)
  {
    var r1, r2 := HeaderFromBytes(bytes + trailing), HeaderFromBytes(bytes);
    assert (bytes + trailing)[..HeaderSize] == bytes[..HeaderSize];
    HeaderEncodeInjective(r1.value, r2.value);
  }

  // ---------------------------------------------------------------------
  // Checksum
  // ---------------------------------------------------------------------

  /** The plain arithmetic sum of the byte values. */
  function Sum(s: seq<u8>): (r: nat)
  {
    if s == [] then 0 else Sum(s[..|s| - 1]) + s[|s| - 1]
  }

  /** `Packet::calculate_checksum`: each byte widened to 32 bits and added up
      from the first byte on. Rust's `sum()` on `u32` panics on overflow in
      debug builds and wraps in release builds; this is the wrapping version.
      The result is the plain sum of the bytes modulo 2^32. */
  function Checksum(payload: seq<u8>): (r: u32)
    ensures r == Sum(payload) % U32Modulus
  {
    if payload == [] then 0
    else
      var prefix := payload[..|payload| - 1];
      var acc := Checksum(prefix);
      AddMod(Sum(prefix), payload[|payload| - 1], U32Modulus);
      (acc + payload[|payload| - 1]) % U32Modulus
  }

  lemma AddMod(a: nat, b: nat, m: nat)
    requires m > 0
    ensures (a % m + b) % m == (a + b) % m
  {
    var s := a % m + b;
    assert a + b == m * (a / m + s / m) + s % m by {
      assert a == m * (a / m) + a % m;
      assert s == m * (s / m) + s % m;
      MulDistributes(m, a / m, s / m);
    }
    DivUnique(a + b, m, a / m + s / m, s % m);
  }

  /** The sum of a concatenation is the sum of its parts. */
  lemma {:induction false} SumConcat(a: seq<u8>, b: seq<u8>)
    ensures Sum(a + b) == Sum(a) + Sum(b)
  {
    if b != [] {
      var b' := b[..|b| - 1];
      assert (a + b)[..|a + b| - 1] == a + b';
      SumConcat(a, b');
    } else {
      assert a + b == a;
    }
  }

  /** The sum depends only on the multiset of byte values, not their order. */
  lemma {:induction false} SumPermutation(a: seq<u8>, b: seq<u8>)
    requires multiset(a) == multiset(b)
    ensures Sum(a) == Sum(b)
  {
    if a == [] {
      assert |b| == |multiset(b)| == 0;
    } else {
      var n := |a| - 1;
      var x := a[n];
      assert a == a[..n] + [x];
      assert x in multiset(b);
      var i :| 0 <= i < |b| && b[i] == x;
      var rest := b[..i] + b[i + 1..];
      assert b == b[..i] + [x] + b[i + 1..];
      assert multiset(rest) == multiset(b) - multiset{x};
      assert multiset(a[..n]) == multiset(a) - multiset{x};
      SumPermutation(a[..n], rest);
      SumConcat(b[..i] + [x], b[i + 1..]);
      SumConcat(b[..i], [x]);
      SumConcat(b[..i], b[i + 1..]);
      assert Sum([x]) == x by {
        assert [x][..0] == [];
      }
    }
  }

  /** The checksum does not depend on byte order: any rearrangement of the
      payload (a swap of two bytes, say) has the same checksum. */
  lemma ChecksumPermutation(a: seq<u8>, b: seq<u8>)
    requires multiset(a) == multiset(b)
    ensures Checksum(a) == Checksum(b)
  {
    SumPermutation(a, b);
  }

  /** The checksum of a concatenation is the wrapping sum of the parts' checksums. */
  lemma ChecksumConcat(a: seq<u8>, b: seq<u8>)
    ensures Checksum(a + b) == (Checksum(a) + Checksum(b)) % U32Modulus
  {
    SumConcat(a, b);
    AddMod(Sum(a), Sum(b), U32Modulus);
    AddMod(Sum(b), Sum(a) % U32Modulus, U32Modulus);
  }

  // ---------------------------------------------------------------------
  // Packet codec
  // ---------------------------------------------------------------------

  /** The header agrees with the payload: its size field is the payload's
      length and its checksum field the payload's checksum. */
  predicate Consistent(p: Packet)
  {
    p.header.payloadSize == |p.payload| && p.header.checksum == Checksum(p.payload)
  }

  /** `Packet::new`: builds the header from the caller's fields and derives
      the size and checksum from the payload. Its `payload.len() as u32`
      truncates the length to 32 bits; payloads of 2^32 bytes or more are
      excluded here. */
  function New(messageType: u8, sequence: u32, playerId: u64, payload: seq<u8>): (p: Packet)
    requires |payload| < U32Modulus
    ensures Consistent(p)
    ensures p.header.messageType == messageType && p.header.sequence == sequence
    ensures p.header.playerId == playerId && p.payload == payload
  {
    Packet(Header(messageType, sequence, playerId, |payload|, Checksum(payload)), payload)
  }

  /** The packet's wire form: the encoded header followed by the payload. */
  function EncodePacket(p: Packet): (r: seq<u8>)
    ensures |r| == HeaderSize + |p.payload|
  {
    EncodeHeader(p.header) + p.payload
  }

  /** `Packet::to_bytes`: starts from the header's bytes and extends the
      buffer with the payload. */
  method PacketToBytes(p: Packet) returns (buffer: seq<u8>)
    ensures buffer == EncodePacket(p)
    ensures |buffer| == HeaderSize + |p.payload|
    ensures buffer[..HeaderSize] == EncodeHeader(p.header)
    ensures buffer[HeaderSize..] == p.payload
  {
    buffer := HeaderToBytes(p.header);
    buffer := buffer + p.payload;
  }

  /** `Packet::from_bytes`. Fails with InsufficientBytes below 21 bytes and
      with PayloadSizeMismatch when the size field (bytes 13..17) differs from
      the number of bytes after the header. On success the payload is every
      byte after the header and the packet encodes back to the input. The
      checksum field is not compared with the payload. */
  function PacketFromBytes(bytes: seq<u8>): (r: Result<Packet>)
    ensures |bytes| < HeaderSize ==> r == Err(InsufficientBytes)
    ensures r == Err(PayloadSizeMismatch)
      <==> |bytes| >= HeaderSize && FromLE(bytes[13..17]) != |bytes| - HeaderSize
    ensures r.Ok? <==> |bytes| >= HeaderSize && FromLE(bytes[13..17]) == |bytes| - HeaderSize
    ensures r.Ok? ==> r.value.payload == bytes[HeaderSize..]
    ensures r.Ok? ==> r.value.header.payloadSize == |r.value.payload|
    ensures r.Ok? ==> EncodePacket(r.value) == bytes
  {
    if |bytes| < HeaderSize then Err(InsufficientBytes)
    else
      match HeaderFromBytes(bytes[..HeaderSize])
      case Err(e) => Err(e)
      case Ok(header) =>
        var payload := bytes[HeaderSize..];
        HeaderLayout(header);
        assert bytes[13..17] == bytes[..HeaderSize][13..17];
        if |payload| != header.payloadSize then Err(PayloadSizeMismatch)
        else
          assert bytes == bytes[..HeaderSize] + payload;
          Ok(Packet(header, payload))
  }

  /** Packet round trip: a packet whose size field matches its payload decodes
      from its own encoding to an equal header and payload, whatever its
      checksum field holds. */
  lemma PacketRoundTrip(p: Packet)
    requires p.header.payloadSize == |p.payload|
    ensures PacketFromBytes(EncodePacket(p)) == Ok(p)
  {
    var bytes := EncodePacket(p);
    assert bytes[..HeaderSize] == EncodeHeader(p.header);
    HeaderLayout(p.header);
    assert bytes[13..17] == EncodeHeader(p.header)[13..17];
    var r := PacketFromBytes(bytes);
    assert EncodeHeader(r.value.header) + r.value.payload == EncodeHeader(p.header) + p.payload;
    assert r.value.payload == p.payload;
    assert EncodeHeader(r.value.header) == EncodeHeader(p.header) by {
      assert EncodeHeader(r.value.header) == bytes[..HeaderSize];
    }
    HeaderEncodeInjective(r.value.header, p.header);
  }

  /** Every packet built by New survives encoding and decoding unchanged. */
  lemma NewRoundTrip(messageType: u8, sequence: u32, playerId: u64, payload: seq<u8>)
    requires |payload| < U32Modulus
    ensures PacketFromBytes(EncodePacket(New(messageType, sequence, playerId, payload)))
      == Ok(New(messageType, sequence, playerId, payload))
  {
    PacketRoundTrip(New(messageType, sequence, playerId, payload));
  }

  /** Padding an encoded packet with extra bytes makes decoding fail with
      PayloadSizeMismatch. */
  lemma PaddedPacketRejected(p: Packet, extra: seq<u8>)
    requires p.header.payloadSize == |p.payload|
    requires extra != []
    ensures PacketFromBytes(EncodePacket(p) + extra) == Err(PayloadSizeMismatch)
  {
    var bytes := EncodePacket(p) + extra;
    HeaderLayout(p.header);
    assert bytes[13..17] == EncodeHeader(p.header)[13..17];
  }

  /** Cutting bytes off the end of an encoded packet's payload makes decoding
      fail with PayloadSizeMismatch. */
  lemma TruncatedPacketRejected(p: Packet, cut: nat)
    requires p.header.payloadSize == |p.payload|
    requires 0 < cut <= |p.payload|
    ensures PacketFromBytes(EncodePacket(p)[..HeaderSize + |p.payload| - cut])
      == Err(PayloadSizeMismatch)
  {
    var bytes := EncodePacket(p)[..HeaderSize + |p.payload| - cut];
    HeaderLayout(p.header);
    assert bytes[13..17] == EncodeHeader(p.header)[13..17];
  }

  /** Decoding never looks at the checksum field: overwriting bytes 17..21 of
      a decodable buffer with anything leaves it decodable, with the same
      payload. A decoded packet therefore need not be Consistent. */
  lemma DecodeIgnoresChecksum(bytes: seq<u8>, c: seq<u8>)
    requires PacketFromBytes(bytes).Ok?
    requires |c| == 4
    ensures PacketFromBytes(bytes[..17] + c + bytes[21..]).Ok?
    ensures PacketFromBytes(bytes[..17] + c + bytes[21..]).value.payload
      == PacketFromBytes(bytes).value.payload
    ensures PacketFromBytes(bytes[..17] + c + bytes[21..]).value.header.checksum == FromLE(c)
  {
    var bytes' := bytes[..17] + c + bytes[21..];
    assert bytes'[13..17] == bytes[13..17];
    assert bytes'[HeaderSize..] == bytes[HeaderSize..];
    var h := PacketFromBytes(bytes').value.header;
    HeaderLayout(h);
    assert EncodeHeader(h) == bytes'[..HeaderSize];
    assert bytes'[..HeaderSize][17..21] == c;
  }
}
