/** Concrete packets: the examples from the module documentation of the
    packet codec, checked against the model. */
module PacketScenarios {
  import opened LittleEndian
  import opened PacketCodec

  /** The documented example `Packet::new(1, 42, 12345, [1, 2, 3, 4, 5])`:
      size 5, checksum 15, 26 bytes on the wire, and it decodes back to an
      equal header and payload. */
  lemma DocumentedExample()
    ensures New(1, 42, 12345, [1, 2, 3, 4, 5]).header.checksum == 15
    ensures New(1, 42, 12345, [1, 2, 3, 4, 5]).header.payloadSize == 5
    ensures |EncodePacket(New(1, 42, 12345, [1, 2, 3, 4, 5]))| == 26
    ensures PacketFromBytes(EncodePacket(New(1, 42, 12345, [1, 2, 3, 4, 5])))
      == Ok(New(1, 42, 12345, [1, 2, 3, 4, 5]))
  {
    var s: seq<u8> := [1, 2, 3, 4, 5];
    SumOfPrefixes(s);
    assert s[..0] == [] && s[..5] == s;
    assert Sum(s[..1]) == 1 && Sum(s[..2]) == 3 && Sum(s[..3]) == 6;
    assert Sum(s[..4]) == 10 && Sum(s[..5]) == 15;
    NewRoundTrip(1, 42, 12345, s);
  }

  /** The empty packet: size and checksum 0, a bare 21-byte header, and it
      decodes to an empty payload. */
  lemma EmptyPacket()
    ensures New(0, 0, 0, []).header.checksum == 0
    ensures New(0, 0, 0, []).header.payloadSize == 0
    ensures |EncodePacket(New(0, 0, 0, []))| == 21
    ensures PacketFromBytes(EncodePacket(New(0, 0, 0, []))).Ok?
    ensures PacketFromBytes(EncodePacket(New(0, 0, 0, []))).value.payload == []
  {
    NewRoundTrip(0, 0, 0, []);
  }

  /** The sum of the first k bytes, one prefix at a time. */
  lemma SumOfPrefixes(s: seq<u8>)
    ensures forall k :: 0 < k <= |s| ==> Sum(s[..k]) == Sum(s[..k - 1]) + s[k - 1]
  {
    forall k | 0 < k <= |s| ensures Sum(s[..k]) == Sum(s[..k - 1]) + s[k - 1] {
      assert s[..k][..k - 1] == s[..k - 1];
    }
  }

  /** Reordering the payload leaves the checksum unchanged: [1, 2, 3] and
      [3, 2, 1] both sum to 6. */
  lemma ChecksumOrderExample()
    ensures Checksum([1, 2, 3]) == Checksum([3, 2, 1]) == 6
  {
    var a: seq<u8> := [1, 2, 3];
    var b: seq<u8> := [3, 2, 1];
    SumOfPrefixes(a);
    assert a[..0] == [] && a[..3] == a;
    assert Sum(a[..1]) == 1 && Sum(a[..2]) == 3 && Sum(a) == 6;
    SumOfPrefixes(b);
    assert b[..0] == [] && b[..3] == b;
    assert Sum(b[..1]) == 3 && Sum(b[..2]) == 5 && Sum(b) == 6;
  }

  /** Dropping the last payload byte of the documented example before
      decoding fails with PayloadSizeMismatch. */
  lemma TruncatedExample()
    ensures PacketFromBytes(EncodePacket(New(1, 42, 12345, [1, 2, 3, 4, 5]))[..25])
      == Err(PayloadSizeMismatch)
  {
    TruncatedPacketRejected(New(1, 42, 12345, [1, 2, 3, 4, 5]), 1);
  }
}
