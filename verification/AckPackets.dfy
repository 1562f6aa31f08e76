/** The two-byte acks PUBACK, PUBREC, PUBREL, PUBCOMP and UNSUBACK on the wire. */
module AckPackets {
  import opened Bytes
  import opened MessageTypes
  import opened Wire

  predicate IsAck(t: MessageType) {
    t == PUBACK || t == PUBREC || t == PUBREL || t == PUBCOMP || t == UNSUBACK
  }

  /** Encode of a freshly made ack; an ack without packet id carries 0. */
  function Encode(t: MessageType, pktid: uint16): seq<byte>
    requires IsAck(t)
  {
    [TypeByte(t, DefaultFlags(t))] + PutUvarint(2) + PutUint16(pktid)
  }

  /** The packet id and the bytes used; the remaining length is not compared with 2. */
  function Decode(t: MessageType, src: seq<byte>): Result<(uint16, nat)> {
    var h :- DecodeHeader(t, src);
    if h.n + 2 > |src| then Err(OutOfRange)
    else Ok((Uint16(src[h.n..h.n + 2]), h.n + 2))
  }

  lemma RoundTrip(t: MessageType, pktid: uint16, rest: seq<byte>)
    requires IsAck(t)
    ensures |Encode(t, pktid)| == 4
    ensures Decode(t, Encode(t, pktid) + rest) == Ok((pktid, 4))
  {
    hide DecodeHeader, PutUint16, Uint16;
    var first := TypeByte(t, DefaultFlags(t));
    TypeByteSplits(t, DefaultFlags(t));
    HeaderRoundTrip(t, first, 2, PutUint16(pktid) + rest);
    assert PutUvarint(2) == [2];
    var h := EncodeHeader(first, 2).value;
    assert Encode(t, pktid) + rest == h + (PutUint16(pktid) + rest);
    assert (Encode(t, pktid) + rest)[2..4] == PutUint16(pktid) + [];
    Uint16RoundTrip(pktid, []);
  }
}
