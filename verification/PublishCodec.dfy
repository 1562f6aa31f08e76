/** PUBLISH on the wire: encoding, decoding and their round trip. */
module PublishCodec {
  import opened Bytes
  import opened MessageTypes
  import opened Wire

  /** pktid is 0 when there is none. */
  datatype Publish = Publish(
    dup: bool,
    qos: nat,
    retain: bool,
    topic: seq<byte>,
    pktid: uint16,
    payload: seq<byte>)

  predicate ValidTopic(topic: seq<byte>) {
    |topic| > 0 && HASH !in topic && PLUS !in topic
  }

  function BoolBit(b: bool): nat { if b then 1 else 0 }

  /** The first byte: type, DUP, QoS and RETAIN. */
  function FirstByte(m: Publish): byte
    requires m.qos <= 2
  {
    TypeByte(PUBLISH, 8 * BoolBit(m.dup) + 2 * m.qos + BoolBit(m.retain))
  }

  function MsgLen(m: Publish): nat {
    2 + |m.topic| + |m.payload| + (if m.qos != 0 then 2 else 0)
  }

  /** What follows the topic. */
  function Tail(m: Publish, nextId: uint16): seq<byte> {
    (if m.qos != 0 then PutUint16(if m.pktid == 0 then nextId else m.pktid) else []) + m.payload
  }

  /** Encode of a message that has changed since it was decoded. nextId is the next number of the
      packet id generator, used when an id is needed and none is set. */
  function Encode(m: Publish, nextId: uint16): Result<seq<byte>>
    requires m.qos <= 2
  {
    if |m.topic| == 0 then Err(BadTopic)
    else if |m.payload| == 0 then Err(EmptyPayload)
    else
      var header :- EncodeHeader(FirstByte(m), ToInt32(MsgLen(m)));
      var topic :- WriteLP(m.topic);
      Ok(header + topic + Tail(m, nextId))
  }

  /** Len() of a changed message. */
  function Len(m: Publish): nat {
    var remlen := ToInt32(MsgLen(m));
    if remlen > MAX_REMAINING_LENGTH || remlen < 0 then 0 else HeaderLen(remlen) + MsgLen(m)
  }

  function QosOf(first: byte): nat { (first % 16 / 2) % 4 }

  /** Where the fields of a received message lie: the packet id, if the QoS asks for one, follows
      the topic, and the payload reaches from start to end. */
  datatype Layout = Layout(first: byte, topicLo: nat, topicHi: nat, start: nat, end: nat)

  function Locate(src: seq<byte>): (r: Result<Layout>)
    ensures r.Ok? ==>
              var l := r.value;
              && 1 <= l.topicLo <= l.topicHi <= l.start <= l.end <= |src|
              && l.start == l.topicHi + (if QosOf(l.first) != 0 then 2 else 0)
              && ValidTopic(src[l.topicLo..l.topicHi])
  {
    var h :- DecodeHeader(PUBLISH, src);
    if h.n > |src| then Err(OutOfRange)
    else
      var (topic, n) :- ReadLP(src[h.n..]);
      if !ValidTopic(topic) then Err(BadTopic)
      else
        var at := h.n + n;
        var start := if QosOf(h.first) != 0 then at + 2 else at;
        if start > |src| then Err(OutOfRange)
        else
          var l := h.remlen - (start - h.n);
          if l < 0 || start + l > |src| then Err(OutOfRange)
          else
            assert src[h.n..][2..n] == src[h.n + 2..at];
            Ok(Layout(h.first, h.n + 2, at, start, start + l))
  }

  /** The message that lies in src at the given places. */
  function MessageAt(src: seq<byte>, l: Layout): Publish
    requires l.topicLo <= l.topicHi <= l.start <= l.end <= |src|
    requires l.start == l.topicHi + (if QosOf(l.first) != 0 then 2 else 0)
  {
    var qos := QosOf(l.first);
    Publish(l.first % 16 / 8 == 1, qos, l.first % 2 == 1, src[l.topicLo..l.topicHi],
            if qos != 0 then Uint16(src[l.topicHi..l.topicHi + 2]) else 0, src[l.start..l.end])
  }

  /** The message and how many bytes it took. */
  function Decode(src: seq<byte>): Result<(Publish, nat)> {
    var l :- Locate(src);
    Ok((MessageAt(src, l), l.end))
  }

  /** Messages a sender can put on the wire. */
  predicate WellFormed(m: Publish) {
    && m.qos <= 2 && ValidTopic(m.topic) && |m.topic| <= MAX_LP_STRING && |m.payload| > 0
    && MsgLen(m) <= MAX_REMAINING_LENGTH
    && (m.qos == 0 <==> m.pktid == 0)
  }

  /** The bytes of a well-formed message. */
  function Packet(m: Publish): (s: seq<byte>)
    requires WellFormed(m)
  {
    EncodesWhole(m, 0);
    Encode(m, 0).value
  }

  lemma FirstByteFields(m: Publish)
    requires m.qos <= 2
    ensures GoodFirst(PUBLISH, FirstByte(m))
    ensures var b := FirstByte(m);
            b % 16 / 8 == BoolBit(m.dup) && QosOf(b) == m.qos && b % 2 == BoolBit(m.retain)
  {
    var f := 8 * BoolBit(m.dup) + 2 * m.qos + BoolBit(m.retain);
    assert FirstByte(m) == 48 + f;
  }

  /** Encode writes exactly Len() bytes. */
  lemma EncodesWhole(m: Publish, nextId: uint16)
    requires WellFormed(m)
    ensures Encode(m, nextId).Ok? && |Encode(m, nextId).value| == Len(m) == HeaderLen(MsgLen(m)) + MsgLen(m)
    ensures var h := EncodeHeader(FirstByte(m), MsgLen(m));
            && h.Ok? && |h.value| == HeaderLen(MsgLen(m))
            && Encode(m, nextId).value == h.value + WriteLP(m.topic).value + Tail(m, nextId)
  {
    hide EncodeHeader, FirstByte, ToInt32, HeaderLen;
    FirstByteFields(m);
    HeaderEncodes(PUBLISH, FirstByte(m), MsgLen(m));
  }

  /** Where the parts of an encoded message end up, whatever follows it. */
  lemma PacketParts(m: Publish, nextId: uint16, src: seq<byte>, rest: seq<byte>)
    requires WellFormed(m) && Encode(m, nextId).Ok? && src == Encode(m, nextId).value + rest
    ensures var hn := HeaderLen(MsgLen(m));
            var at := hn + 2 + |m.topic|;
            && DecodeHeader(PUBLISH, src) == Ok(Header(FirstByte(m), MsgLen(m), hn))
            && at <= |src| && ReadLP(src[hn..]) == Ok((m.topic, 2 + |m.topic|))
            && src[at..] == Tail(m, nextId) + rest
  {
    hide DecodeHeader, EncodeHeader, ReadLP, FirstByte, Tail, HeaderLen, Encode;
    EncodesWhole(m, nextId);
    FirstByteFields(m);
    var h := EncodeHeader(FirstByte(m), MsgLen(m)).value;
    var topic, tail := WriteLP(m.topic).value, Tail(m, nextId);
    var body := topic + (tail + rest);
    Regroup(h, topic, tail, rest);
    HeaderRoundTrip(PUBLISH, FirstByte(m), MsgLen(m), body);
    LPRoundTrip(m.topic, tail + rest);
    Suffix(src, HeaderLen(MsgLen(m)), 2 + |m.topic|);
  }

  lemma Regroup(a: seq<byte>, b: seq<byte>, c: seq<byte>, d: seq<byte>)
    ensures a + b + c + d == a + (b + (c + d))
  {
  }

  lemma LocateEncoded(m: Publish, nextId: uint16, src: seq<byte>, rest: seq<byte>)
    requires WellFormed(m) && Encode(m, nextId).Ok? && src == Encode(m, nextId).value + rest
    ensures var hn := HeaderLen(MsgLen(m));
            var at := hn + 2 + |m.topic|;
            var start := if m.qos != 0 then at + 2 else at;
            Locate(src) == Ok(Layout(FirstByte(m), hn + 2, at, start, start + |m.payload|))
  {
    hide DecodeHeader, ReadLP, FirstByte, Tail, HeaderLen, Encode;
    EncodesWhole(m, nextId);
    FirstByteFields(m);
    PacketParts(m, nextId, src, rest);
  }

  /** Decode undoes Encode, whatever follows in the buffer. */
  lemma RoundTrip(m: Publish, nextId: uint16, rest: seq<byte>)
    requires WellFormed(m)
    ensures Encode(m, nextId).Ok?
    ensures Decode(Encode(m, nextId).value + rest) == Ok((m, Len(m)))
  {
    hide DecodeHeader, FirstByte, Tail, HeaderLen, Encode, Uint16, Locate;
    EncodesWhole(m, nextId);
    FirstByteFields(m);
    var src := Encode(m, nextId).value + rest;
    LocateEncoded(m, nextId, src, rest);
    PacketParts(m, nextId, src, rest);
    var hn := HeaderLen(MsgLen(m));
    var at := hn + 2 + |m.topic|;
    ReadLPTopic(src, hn, m.topic);
    TailDecodes(m, nextId, src, at, rest);
  }

  /** The message that Encode puts on the wire: QoS 1 and 2 without packet id get the next one, and
      with QoS 0 there is no id. */
  function Sent(m: Publish, nextId: uint16): Publish {
    m.(pktid := if m.qos == 0 then 0 else if m.pktid == 0 then nextId else m.pktid)
  }

  lemma EncodesSent(m: Publish, nextId: uint16)
    requires m.qos <= 2
    ensures Encode(m, nextId) == Encode(Sent(m, nextId), nextId) && Len(m) == Len(Sent(m, nextId))
  {
    hide EncodeHeader, WriteLP, ToInt32;
  }

  /** Decode gives the message that was put on the wire, whatever follows in the buffer. */
  lemma SentArrives(m: Publish, nextId: uint16, rest: seq<byte>)
    requires WellFormed(Sent(m, nextId))
    ensures Encode(m, nextId).Ok? && |Encode(m, nextId).value| == Len(m)
    ensures Decode(Encode(m, nextId).value + rest) == Ok((Sent(m, nextId), Len(m)))
  {
    hide Encode, Decode, Len;
    EncodesSent(m, nextId);
    EncodesWhole(Sent(m, nextId), nextId);
    RoundTrip(Sent(m, nextId), nextId, rest);
  }

  lemma ReadLPTopic(src: seq<byte>, hn: nat, topic: seq<byte>)
    requires hn <= |src| && ReadLP(src[hn..]) == Ok((topic, 2 + |topic|))
    ensures hn + 2 + |topic| <= |src| && src[hn + 2..hn + 2 + |topic|] == topic
  {
    assert src[hn..][2..2 + |topic|] == src[hn + 2..hn + 2 + |topic|];
  }

  lemma Suffix(s: seq<byte>, a: nat, b: nat)
    requires a + b <= |s|
    ensures s[a..][b..] == s[a + b..]
  {
  }

  lemma TailDecodes(m: Publish, nextId: uint16, src: seq<byte>, at: nat, rest: seq<byte>)
    requires m.qos != 0 ==> m.pktid != 0
    requires at <= |src| && src[at..] == Tail(m, nextId) + rest
    ensures var start := if m.qos != 0 then at + 2 else at;
            && start + |m.payload| <= |src|
            && src[start..start + |m.payload|] == m.payload
            && (m.qos != 0 ==> Uint16(src[at..at + 2]) == m.pktid)
  {
    var t := Tail(m, nextId) + rest;
    var k := if m.qos != 0 then 2 else 0;
    assert src[at + k..at + k + |m.payload|] == t[k..k + |m.payload|] == m.payload;
    if m.qos != 0 {
      assert src[at..at + 2] == t[..2] == PutUint16(m.pktid) + [];
      Uint16RoundTrip(m.pktid, []);
    }
  }
}
