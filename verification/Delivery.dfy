/**
 From messages to bytes and back: every message that survives its own codec also survives being
 sent one after the other over a byte stream and cut out of it again.
 */
module Delivery {
  import opened Bytes
  import opened Framing
  import opened MessageTypes
  import opened Wire

  import A = AckPackets
  import C = ConnectCodec
  import P = PublishCodec
  import S = SubscribeCodec
  import U = UnsubscribeCodec

  datatype Message =
    | Connect(connect: C.Connect)
    | Publish(publish: P.Publish)
    | Subscribe(subscribe: S.Subscribe)
    | Unsubscribe(unsubscribe: U.Unsubscribe)
    | Ack(kind: MessageType, pktid: uint16)

  /** What the message objects keep: a QoS of at most 2, and a QoS for each topic. */
  predicate Encodable(m: Message) {
    match m
    case Publish(p) => p.qos <= 2
    case Subscribe(s) => |s.topics| == |s.qos|
    case Ack(t, _) => A.IsAck(t)
    case _ => true
  }

  /** What Encode makes of a message; nextId is the next number of the packet id generator. */
  function Encoding(m: Message, nextId: uint16): Result<seq<byte>>
    requires Encodable(m)
  {
    match m
    case Connect(c) => C.Encode(c)
    case Publish(p) => P.Encode(p, nextId)
    case Subscribe(s) => S.Encode(s, nextId)
    case Unsubscribe(u) => U.Encode(u, nextId)
    case Ack(t, id) => Ok(A.Encode(t, id))
  }

  /** Len(). */
  function Length(m: Message): nat {
    match m
    case Connect(c) => C.Len(c)
    case Publish(p) => P.Len(p)
    case Subscribe(s) => S.Len(s)
    case Unsubscribe(u) => U.Len(u)
    case Ack(_, _) => 4
  }

  /** The message with the packet id that Encode gives it. */
  function Sent(m: Message, nextId: uint16): Message {
    match m
    case Publish(p) => Publish(P.Sent(p, nextId))
    case Subscribe(s) => Subscribe(S.Sent(s, nextId))
    case Unsubscribe(u) => Unsubscribe(U.Sent(u, nextId))
    case _ => m
  }

  /** Messages whose own round trip holds. */
  predicate Sendable(m: Message, nextId: uint16) {
    Encodable(m) &&
    match Sent(m, nextId)
    case Connect(c) => C.Writable(c) && C.Faithful(c)
    case Publish(p) => P.WellFormed(p)
    case Subscribe(s) => S.WellFormed(s)
    case Unsubscribe(u) => U.WellFormed(u) && |u.topics| <= 2 + |u.topics[|u.topics| - 1]|
    case Ack(_, _) => true
  }

  /** A packet is decoded as the type its first byte names, takes all its bytes, and gives m. */
  predicate Gives(p: seq<byte>, m: Message) {
    && p != []
    && match m
       case Connect(c) => C.Decode(p) == Ok((c, |p|)) && TypeOf(p[0] / 16) == CONNECT
       case Publish(b) => P.Decode(p) == Ok((b, |p|)) && TypeOf(p[0] / 16) == PUBLISH
       case Subscribe(s) => S.Decode(p) == Ok((s, |p|)) && TypeOf(p[0] / 16) == SUBSCRIBE
       case Unsubscribe(u) => U.Decode(p) == Ok((u, |p|)) && TypeOf(p[0] / 16) == UNSUBSCRIBE
       case Ack(t, id) => A.Decode(t, p) == Ok((id, |p|)) && TypeOf(p[0] / 16) == t
  }

  // ------------------------------------------------------------------
  // A header and the bytes it announces are one packet
  // ------------------------------------------------------------------

  lemma {:induction false} PeekFromAt(s: seq<byte>, cnt: nat, k: nat)
    requires 2 <= cnt <= k + 1 <= 5 && k + 1 <= |s|
    requires s[k] < 128 && forall i | 1 <= i < k :: s[i] >= 128
    ensures PeekFrom(s, cnt) == Size(s[0] / 16, VarintValue(s[1..k + 1]) + k + 1)
    decreases k + 1 - cnt
  {
    if cnt < k + 1 { PeekFromAt(s, cnt + 1, k); }
  }

  lemma HeaderMakesPacket(first: byte, body: seq<byte>)
    requires |body| <= MAX_REMAINING_LENGTH && ValidType(TypeOf(first / 16))
    ensures EncodeHeader(first, |body|).Ok? && IsPacket(EncodeHeader(first, |body|).value + body)
  {
    hide PeekFrom, PutUvarint, VarintValue, VarintLen;
    var len := PutUvarint(|body|);
    var k := |len|;
    var s := [first] + len + body;
    PutUvarintDecodes(|body|, body);
    PutUvarintLength(|body|);
    assert s[1..] == len + body && s[1..k + 1] == len;
    assert forall i | 1 <= i <= k :: s[i] == (len + body)[i - 1];
    PeekFromAt(s, 2, k);
  }

  // ------------------------------------------------------------------
  // Each kind of message
  // ------------------------------------------------------------------

  /** The common end of these proofs. */
  lemma PacketOf(t: MessageType, first: byte, body: seq<byte>, p: seq<byte>)
    requires GoodFirst(t, first) && |body| <= MAX_REMAINING_LENGTH
    requires EncodeHeader(first, |body|).Ok? && p == EncodeHeader(first, |body|).value + body
    ensures IsPacket(p) && p != [] && TypeOf(p[0] / 16) == t && p + [] == p
  {
    CodeInjective(TypeOf(first / 16), t);
    HeaderMakesPacket(first, body);
  }

  lemma PublishBytes(m: P.Publish, nextId: uint16) returns (body: seq<byte>)
    requires P.WellFormed(m)
    ensures P.Encode(m, nextId).Ok? && |body| <= MAX_REMAINING_LENGTH && GoodFirst(PUBLISH, P.FirstByte(m))
    ensures EncodeHeader(P.FirstByte(m), |body|).Ok?
    ensures P.Encode(m, nextId).value == EncodeHeader(P.FirstByte(m), |body|).value + body
  {
    WriteLPLength(m.topic);
    hide P.Encode, EncodeHeader, P.FirstByte, WriteLP, HeaderLen;
    P.EncodesWhole(m, nextId);
    P.FirstByteFields(m);
    body := WriteLP(m.topic).value + P.Tail(m, nextId);
  }

  lemma PublishIsPacket(m: P.Publish, nextId: uint16)
    requires Sendable(Publish(m), nextId)
    ensures P.Encode(m, nextId).Ok? && IsPacket(P.Encode(m, nextId).value) && |P.Encode(m, nextId).value| == P.Len(m)
    ensures Gives(P.Encode(m, nextId).value, Publish(P.Sent(m, nextId)))
  {
    hide P.Encode, P.Decode, P.Sent, IsPacket, EncodeHeader, P.FirstByte, P.Len, GoodFirst;
    P.SentArrives(m, nextId, []);
    P.EncodesSent(m, nextId);
    var body := PublishBytes(P.Sent(m, nextId), nextId);
    PacketOf(PUBLISH, P.FirstByte(P.Sent(m, nextId)), body, P.Encode(m, nextId).value);
  }

  lemma SubscribeBytes(m: S.Subscribe, nextId: uint16) returns (body: seq<byte>)
    requires S.WellFormed(m)
    ensures S.Encode(m, nextId).Ok? && |body| <= MAX_REMAINING_LENGTH && GoodFirst(SUBSCRIBE, S.FirstByte())
    ensures EncodeHeader(S.FirstByte(), |body|).Ok?
    ensures S.Encode(m, nextId).value == EncodeHeader(S.FirstByte(), |body|).value + body
  {
    hide EncodeHeader, S.Body, S.BodyLen, S.DecodeBody, ToInt32, HeaderLen;
    S.BodyDecodes(m.topics, m.qos, []);
    TypeByteSplits(SUBSCRIBE, DefaultFlags(SUBSCRIBE));
    HeaderEncodes(SUBSCRIBE, S.FirstByte(), S.MsgLen(m));
    body := PutUint16(m.pktid) + S.Body(m.topics, m.qos).value;
  }

  lemma SubscribeIsPacket(m: S.Subscribe, nextId: uint16)
    requires Sendable(Subscribe(m), nextId)
    ensures S.Encode(m, nextId).Ok? && IsPacket(S.Encode(m, nextId).value) && |S.Encode(m, nextId).value| == S.Len(m)
    ensures Gives(S.Encode(m, nextId).value, Subscribe(S.Sent(m, nextId)))
  {
    hide S.Encode, S.Decode, IsPacket, EncodeHeader, S.FirstByte, S.Len, GoodFirst;
    S.SentArrives(m, nextId, []);
    var body := SubscribeBytes(S.Sent(m, nextId), nextId);
    PacketOf(SUBSCRIBE, S.FirstByte(), body, S.Encode(m, nextId).value);
  }

  lemma UnsubscribeBytes(m: U.Unsubscribe, nextId: uint16) returns (body: seq<byte>)
    requires U.WellFormed(m)
    ensures U.Encode(m, nextId).Ok? && |body| <= MAX_REMAINING_LENGTH && GoodFirst(UNSUBSCRIBE, U.FirstByte())
    ensures EncodeHeader(U.FirstByte(), |body|).Ok?
    ensures U.Encode(m, nextId).value == EncodeHeader(U.FirstByte(), |body|).value + body
  {
    hide EncodeHeader, U.Body, U.BodyLen, U.DecodeBody, ToInt32, HeaderLen;
    U.BodyDecodes(m.topics, 0, []);
    TypeByteSplits(UNSUBSCRIBE, DefaultFlags(UNSUBSCRIBE));
    HeaderEncodes(UNSUBSCRIBE, U.FirstByte(), U.MsgLen(m));
    body := PutUint16(m.pktid) + U.Body(m.topics).value;
  }

  lemma UnsubscribeIsPacket(m: U.Unsubscribe, nextId: uint16)
    requires Sendable(Unsubscribe(m), nextId)
    ensures U.Encode(m, nextId).Ok? && IsPacket(U.Encode(m, nextId).value) && |U.Encode(m, nextId).value| == U.Len(m)
    ensures Gives(U.Encode(m, nextId).value, Unsubscribe(U.Sent(m, nextId)))
  {
    hide U.Encode, U.Decode, U.Sent, IsPacket, EncodeHeader, U.FirstByte, U.Len, GoodFirst, U.WellFormed;
    U.EncodesSent(m, nextId);
    U.RoundTripExact(U.Sent(m, nextId), nextId, []);
    U.DecodesPrefix(U.Sent(m, nextId), nextId, []);
    var body := UnsubscribeBytes(U.Sent(m, nextId), nextId);
    PacketOf(UNSUBSCRIBE, U.FirstByte(), body, U.Encode(m, nextId).value);
  }

  lemma ConnectIsPacket(m: C.Connect)
    requires C.Writable(m) && C.Faithful(m)
    ensures C.Encode(m).Ok? && IsPacket(C.Encode(m).value) && |C.Encode(m).value| == C.Len(m)
    ensures Gives(C.Encode(m).value, Connect(m))
  {
    hide C.Decode, IsPacket, EncodeHeader, C.EncodeBody, ToInt32, C.Faithful, C.MsgLen;
    C.RoundTripExact(m);
    C.EncodedArrives(m);
    C.EncodeBodyIs(m);
    TypeByteSplits(CONNECT, DefaultFlags(CONNECT));
    HeaderEncodes(CONNECT, C.FirstByte(), C.MsgLen(m));
    PacketOf(CONNECT, C.FirstByte(), C.EncodeBody(m).value, C.Encode(m).value);
  }

  lemma AckIsPacket(t: MessageType, id: uint16)
    requires A.IsAck(t)
    ensures IsPacket(A.Encode(t, id)) && |A.Encode(t, id)| == 4 && Gives(A.Encode(t, id), Ack(t, id))
  {
    hide A.Decode, IsPacket, PutUvarint;
    A.RoundTrip(t, id, []);
    TypeByteSplits(t, DefaultFlags(t));
    var first := TypeByte(t, DefaultFlags(t));
    CodeInjective(TypeOf(first / 16), t);
    assert EncodeHeader(first, 2) == Ok([first] + PutUvarint(2));
    PacketOf(t, first, PutUint16(id), A.Encode(t, id));
  }

  /** Every message whose own round trip holds is one packet of Len() bytes that decodes to it. */
  lemma MessageIsPacket(m: Message, nextId: uint16)
    requires Sendable(m, nextId)
    ensures var e := Encoding(m, nextId);
            e.Ok? && IsPacket(e.value) && |e.value| == Length(m) && Gives(e.value, Sent(m, nextId))
  {
    hide IsPacket, Gives, P.Encode, S.Encode, U.Encode, C.Encode, A.Encode, P.Len, S.Len, U.Len, C.Len;
    match m
    case Connect(c) => ConnectIsPacket(c);
    case Publish(p) => PublishIsPacket(p, nextId);
    case Subscribe(s) => SubscribeIsPacket(s, nextId);
    case Unsubscribe(u) => UnsubscribeIsPacket(u, nextId);
    case Ack(t, id) => AckIsPacket(t, id);
  }

  // ------------------------------------------------------------------
  // The stream
  // ------------------------------------------------------------------

  /** p is the encoding of a message whose round trip holds. */
  ghost predicate Carries(p: seq<byte>, m: Message, nextId: uint16) {
    Sendable(m, nextId) && Encoding(m, nextId) == Ok(p)
  }

  /** Messages sent one after the other come out of the processor loop as exactly the packets that
      were sent, in order, each decoding to its message, however the stream goes on. */
  lemma StreamDelivers(ms: seq<Message>, ids: seq<uint16>, ps: seq<seq<byte>>, tail: seq<byte>, limit: nat,
                       verdict: seq<byte> -> Verdict)
    requires |ms| == |ids| == |ps| && forall i | 0 <= i < |ms| :: Carries(ps[i], ms[i], ids[i])
    requires forall p | p in ps :: |p| <= limit && verdict(p) == Proceed
    ensures forall i | 0 <= i < |ms| :: Gives(ps[i], Sent(ms[i], ids[i]))
    ensures var c := Process(tail, limit, verdict);
            Process(Concat(ps) + tail, limit, verdict) == c.(packets := ps + c.packets)
  {
    hide Gives, IsPacket, Encoding, Process, Sendable, Sent;
    forall i | 0 <= i < |ms|
      ensures IsPacket(ps[i]) && Gives(ps[i], Sent(ms[i], ids[i]))
    {
      assert Carries(ps[i], ms[i], ids[i]);
      MessageIsPacket(ms[i], ids[i]);
    }
    ProcessRecoversPackets(ps, tail, limit, verdict);
  }
}
