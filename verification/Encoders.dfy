/**
 The encoders as they run: writing into a slice dst[lo..hi] that may be too short, one field after
 the other. Each succeeds exactly when the message can be encoded and fits, then leaves in the slice
 the bytes that the codec functions describe, and in no case touches what lies outside of it.
 */
module Encoders {
  import opened Bytes
  import opened MessageTypes
  import opened Wire

  import A = AckPackets
  import C = ConnectCodec
  import P = PublishCodec
  import S = SubscribeCodec
  import U = UnsubscribeCodec

  /** Writes at `total` if there is room before hi; the result is where the next field goes. */
  method Put(dst: array<byte>, total: nat, hi: nat, bytes: seq<byte>) returns (r: Result<nat>)
    requires total <= hi <= dst.Length
    modifies dst
    ensures r.Ok? <==> total + |bytes| <= hi
    ensures forall k | 0 <= k < dst.Length && !(total <= k < hi) :: dst[k] == old(dst[k])
    ensures r.Ok? ==> r.value == total + |bytes| && dst[..r.value] == old(dst[..total]) + bytes
  {
    if hi - total < |bytes| {
      return Err(OutOfRange);
    }
    forall k | total <= k < total + |bytes| {
      dst[k] := bytes[k - total];
    }
    return Ok(total + |bytes|);
  }

  /** writeLPBytes. */
  method WriteLPBytes(dst: array<byte>, total: nat, hi: nat, b: seq<byte>) returns (r: Result<nat>)
    requires total <= hi <= dst.Length
    modifies dst
    ensures r.Ok? <==> |b| <= MAX_LP_STRING && total + 2 + |b| <= hi
    ensures forall k | 0 <= k < dst.Length && !(total <= k < hi) :: dst[k] == old(dst[k])
    ensures r.Ok? ==> r.value == total + 2 + |b| && dst[..r.value] == old(dst[..total]) + WriteLP(b).value
  {
    hide PutUint16;
    if |b| > MAX_LP_STRING {
      return Err(TooLong);
    }
    if hi - total < 2 + |b| {
      return Err(ShortBuffer);
    }
    r := Put(dst, total, hi, PutUint16(|b|));
    r := Put(dst, total + 2, hi, b);
  }

  /** header.encode at the front of the slice. */
  method EncodeHeaderInto(dst: array<byte>, lo: nat, hi: nat, first: byte, remlen: int) returns (r: Result<nat>)
    requires lo <= hi <= dst.Length
    modifies dst
    ensures r.Ok? <==> EncodeHeader(first, remlen).Ok? && lo + HeaderLen(remlen) <= hi
    ensures r.Ok? ==>
              r.value == lo + HeaderLen(remlen) && dst[..r.value] == old(dst[..lo]) + EncodeHeader(first, remlen).value
    ensures forall k | 0 <= k < dst.Length && !(lo <= k < hi) :: dst[k] == old(dst[k])
  {
    hide PutUvarint;
    if hi - lo < HeaderLen(remlen) {
      return Err(ShortBuffer);
    }
    if remlen > MAX_REMAINING_LENGTH || remlen < 0 {
      return Err(BadLength);
    }
    if !ValidType(TypeOf(first / 16)) {
      return Err(BadType);
    }
    PutUvarintLength(remlen);
    r := Put(dst, lo, hi, [first]);
    r := Put(dst, lo + 1, hi, PutUvarint(remlen));
  }

  // ------------------------------------------------------------------
  // PUBLISH
  // ------------------------------------------------------------------

  /** Whenever Encode succeeds, it writes Len() bytes. */
  lemma PublishLength(m: P.Publish, nextId: uint16)
    requires m.qos <= 2 && P.Encode(m, nextId).Ok?
    ensures |P.Encode(m, nextId).value| == P.Len(m) == HeaderLen(ToInt32(P.MsgLen(m))) + P.MsgLen(m)
  {
    hide PutUvarint;
    PutUvarintLength(ToInt32(P.MsgLen(m)));
  }

  /** When a PUBLISH can be encoded, and of what its packet then consists. */
  lemma PublishEncodes(m: P.Publish, nextId: uint16)
    requires m.qos <= 2
    ensures var h := EncodeHeader(P.FirstByte(m), ToInt32(P.MsgLen(m)));
            && (P.Encode(m, nextId).Ok? <==> m.topic != [] && m.payload != [] && h.Ok? && |m.topic| <= MAX_LP_STRING)
            && (P.Encode(m, nextId).Ok? ==>
                  && WriteLP(m.topic).Ok?
                  && P.Encode(m, nextId).value == h.value + WriteLP(m.topic).value + P.Tail(m, nextId))
    ensures P.Encode(m, nextId).Ok? ==> P.Len(m) == HeaderLen(ToInt32(P.MsgLen(m))) + P.MsgLen(m)
  {
    hide P.MsgLen, P.FirstByte, PutUvarint, P.Tail, ToInt32;
  }

  /** The packet id, if the QoS asks for one, and the payload. */
  method EncodeTail(dst: array<byte>, total: nat, hi: nat, m: P.Publish, nextId: uint16) returns (end: nat)
    requires total + |P.Tail(m, nextId)| <= hi <= dst.Length
    modifies dst
    ensures end == total + |P.Tail(m, nextId)| && dst[..end] == old(dst[..total]) + P.Tail(m, nextId)
    ensures forall k | 0 <= k < dst.Length && !(total <= k < hi) :: dst[k] == old(dst[k])
  {
    hide PutUint16;
    var r := Ok(total);
    if m.qos != 0 {
      r := Put(dst, total, hi, PutUint16(if m.pktid == 0 then nextId else m.pktid));
    }
    r := Put(dst, r.value, hi, m.payload);
    end := r.value;
  }

  lemma TailLength(m: P.Publish, nextId: uint16)
    ensures P.MsgLen(m) == 2 + |m.topic| + |P.Tail(m, nextId)|
  {
  }

  method EncodePublish(dst: array<byte>, lo: nat, hi: nat, m: P.Publish, nextId: uint16) returns (r: Result<nat>)
    requires m.qos <= 2 && lo <= hi <= dst.Length
    modifies dst
    ensures r.Ok? <==> P.Encode(m, nextId).Ok? && lo + P.Len(m) <= hi
    ensures r.Ok? ==> r.value == lo + P.Len(m) && dst[..r.value] == old(dst[..lo]) + P.Encode(m, nextId).value
    ensures forall k | 0 <= k < dst.Length && !(lo <= k < hi) :: dst[k] == old(dst[k])
  {
    hide P.Encode, P.Len, P.Tail, P.MsgLen, EncodeHeader, P.FirstByte, ToInt32, HeaderLen, WriteLP;
    PublishEncodes(m, nextId);
    TailLength(m, nextId);
    if |m.topic| == 0 {
      return Err(BadTopic);
    }
    if |m.payload| == 0 {
      return Err(EmptyPayload);
    }
    var ml := P.MsgLen(m);
    var remlen := ToInt32(ml);
    LengthOk(P.FirstByte(m), remlen);
    if remlen > MAX_REMAINING_LENGTH || remlen < 0 {
      return Err(BadLength);
    }
    if hi - lo < HeaderLen(remlen) + ml {
      return Err(ShortBuffer);
    }
    r := EncodeHeaderInto(dst, lo, hi, P.FirstByte(m), remlen);
    if r.Err? {
      return;
    }
    r := WriteLPBytes(dst, r.value, hi, m.topic);
    if r.Err? {
      return;
    }
    var end := EncodeTail(dst, r.value, hi, m, nextId);
    return Ok(end);
  }

  // ------------------------------------------------------------------
  // SUBSCRIBE and UNSUBSCRIBE
  // ------------------------------------------------------------------

  /** The topic loop of SUBSCRIBE. */
  method EncodeSubscriptions(dst: array<byte>, start: nat, hi: nat, topics: seq<seq<byte>>, qos: seq<byte>)
      returns (r: Result<nat>)
    requires |topics| == |qos| && start <= hi <= dst.Length
    modifies dst
    ensures r.Ok? <==> S.Body(topics, qos).Ok? && start + S.BodyLen(topics) <= hi
    ensures forall k | 0 <= k < dst.Length && !(start <= k < hi) :: dst[k] == old(dst[k])
    ensures r.Ok? ==>
              && r.value == start + S.BodyLen(topics)
              && dst[..r.value] == old(dst[..start]) + S.Body(topics, qos).value
  {
    hide WriteLP, S.Body, S.BodyLen;
    var total := start;
    ghost var whole := S.Body(topics, qos);
    assert topics[0..] == topics && qos[0..] == qos;
    for i := 0 to |topics|
      invariant start <= total <= hi
      invariant forall k | 0 <= k < dst.Length && !(start <= k < hi) :: dst[k] == old(dst[k])
      invariant total + S.BodyLen(topics[i..]) == start + S.BodyLen(topics)
      invariant whole.Ok? == S.Body(topics[i..], qos[i..]).Ok?
      invariant whole.Ok? ==> dst[..total] + S.Body(topics[i..], qos[i..]).value == old(dst[..start]) + whole.value
    {
      SubscriptionStep(topics[i..], qos[i..]);
      assert topics[i..][1..] == topics[i + 1..] && qos[i..][1..] == qos[i + 1..];
      ghost var before := dst[..total];
      r := WriteLPBytes(dst, total, hi, topics[i]);
      if r.Err? {
        return;
      }
      r := Put(dst, r.value, hi, [qos[i]]);
      if r.Err? {
        return;
      }
      if whole.Ok? { Joined(before, WriteLP(topics[i]).value, [qos[i]], S.Body(topics[i + 1..], qos[i + 1..]).value); }
      total := r.value;
    }
    SubscriptionsEnd(topics, qos);
    return Ok(total);
  }

  lemma SubscriptionStep(topics: seq<seq<byte>>, qos: seq<byte>)
    requires |topics| == |qos| > 0
    ensures S.BodyLen(topics) == 3 + |topics[0]| + S.BodyLen(topics[1..])
    ensures S.Body(topics, qos).Ok? <==> |topics[0]| <= MAX_LP_STRING && S.Body(topics[1..], qos[1..]).Ok?
    ensures S.Body(topics, qos).Ok? ==>
              WriteLP(topics[0]).Ok? &&
              S.Body(topics, qos).value == WriteLP(topics[0]).value + [qos[0]] + S.Body(topics[1..], qos[1..]).value
  {
  }

  lemma SubscriptionsEnd(topics: seq<seq<byte>>, qos: seq<byte>)
    requires |topics| == |qos|
    ensures S.BodyLen(topics[|topics|..]) == 0 && S.Body(topics[|topics|..], qos[|topics|..]) == Ok([])
  {
  }

  lemma Joined(a: seq<byte>, b: seq<byte>, c: seq<byte>, d: seq<byte>)
    ensures a + (b + c + d) == a + b + c + d
    ensures a + (b + d) == a + b + d
  {
  }

  lemma SubscribeLength(m: S.Subscribe, nextId: uint16)
    requires |m.topics| == |m.qos| && S.Encode(m, nextId).Ok?
    ensures |S.Encode(m, nextId).value| == S.Len(m) == HeaderLen(ToInt32(S.MsgLen(m))) + S.MsgLen(m)
  {
    hide PutUvarint, S.Body, S.BodyLen;
    PutUvarintLength(ToInt32(S.MsgLen(m)));
    SubscriptionsLength(m.topics, m.qos);
  }

  lemma {:induction false} SubscriptionsLength(topics: seq<seq<byte>>, qos: seq<byte>)
    requires |topics| == |qos| && S.Body(topics, qos).Ok?
    ensures |S.Body(topics, qos).value| == S.BodyLen(topics)
    decreases |topics|
  {
    if topics != [] { SubscriptionsLength(topics[1..], qos[1..]); }
  }

  /** `stale` is the remaining length from before the call: the first check still counts a header
      for that one. */
  method EncodeSubscribe(dst: array<byte>, lo: nat, hi: nat, m: S.Subscribe, nextId: uint16, stale: int)
      returns (r: Result<nat>)
    requires |m.topics| == |m.qos| && lo <= hi <= dst.Length
    modifies dst
    ensures r.Ok? <==>
              S.Encode(m, nextId).Ok? && lo + S.Len(m) <= hi && lo + HeaderLen(stale) + S.MsgLen(m) <= hi
    ensures r.Ok? ==> r.value == lo + S.Len(m) && dst[..r.value] == old(dst[..lo]) + S.Encode(m, nextId).value
    ensures forall k | 0 <= k < dst.Length && !(lo <= k < hi) :: dst[k] == old(dst[k])
  {
    hide EncodeHeader, ToInt32, PutUint16, S.Body, S.BodyLen;
    var ml := S.MsgLen(m);
    if hi - lo < HeaderLen(stale) + ml {
      return Err(ShortBuffer);
    }
    var remlen := ToInt32(ml);
    if S.Encode(m, nextId).Ok? { SubscribeLength(m, nextId); }
    HeaderBound(ml);
    if remlen > MAX_REMAINING_LENGTH || remlen < 0 {
      return Err(BadLength);
    }
    r := EncodeHeaderInto(dst, lo, hi, S.FirstByte(), remlen);
    if r.Err? {
      return;
    }
    r := Put(dst, r.value, hi, PutUint16(if m.pktid == 0 then nextId else m.pktid));
    r := EncodeSubscriptions(dst, r.value, hi, m.topics, m.qos);
  }

  /** There is always room for the packet id where there is room for the body. */
  lemma HeaderBound(ml: nat)
    requires ml >= 2
    ensures HeaderLen(ToInt32(ml)) + 2 <= 2 + ml
  {
  }

  /** The topic loop of UNSUBSCRIBE. */
  method EncodeTopics(dst: array<byte>, start: nat, hi: nat, topics: seq<seq<byte>>) returns (r: Result<nat>)
    requires start <= hi <= dst.Length
    modifies dst
    ensures r.Ok? <==> U.Body(topics).Ok? && start + U.BodyLen(topics) <= hi
    ensures forall k | 0 <= k < dst.Length && !(start <= k < hi) :: dst[k] == old(dst[k])
    ensures r.Ok? ==>
              r.value == start + U.BodyLen(topics) && dst[..r.value] == old(dst[..start]) + U.Body(topics).value
  {
    hide WriteLP, U.Body, U.BodyLen;
    var total := start;
    ghost var whole := U.Body(topics);
    assert topics[0..] == topics;
    for i := 0 to |topics|
      invariant start <= total <= hi
      invariant forall k | 0 <= k < dst.Length && !(start <= k < hi) :: dst[k] == old(dst[k])
      invariant total + U.BodyLen(topics[i..]) == start + U.BodyLen(topics)
      invariant whole.Ok? == U.Body(topics[i..]).Ok?
      invariant whole.Ok? ==> dst[..total] + U.Body(topics[i..]).value == old(dst[..start]) + whole.value
    {
      TopicStep(topics[i..]);
      assert topics[i..][1..] == topics[i + 1..];
      ghost var before := dst[..total];
      r := WriteLPBytes(dst, total, hi, topics[i]);
      if r.Err? {
        return;
      }
      if whole.Ok? { Joined(before, WriteLP(topics[i]).value, [], U.Body(topics[i + 1..]).value); }
      total := r.value;
    }
    TopicsEnd(topics);
    return Ok(total);
  }

  lemma TopicStep(topics: seq<seq<byte>>)
    requires topics != []
    ensures U.BodyLen(topics) == 2 + |topics[0]| + U.BodyLen(topics[1..])
    ensures U.Body(topics).Ok? <==> |topics[0]| <= MAX_LP_STRING && U.Body(topics[1..]).Ok?
    ensures U.Body(topics).Ok? ==>
              WriteLP(topics[0]).Ok? && U.Body(topics).value == WriteLP(topics[0]).value + U.Body(topics[1..]).value
  {
  }

  lemma TopicsEnd(topics: seq<seq<byte>>)
    ensures U.BodyLen(topics[|topics|..]) == 0 && U.Body(topics[|topics|..]) == Ok([])
  {
  }

  lemma UnsubscribeLength(m: U.Unsubscribe, nextId: uint16)
    requires U.Encode(m, nextId).Ok?
    ensures |U.Encode(m, nextId).value| == U.Len(m) == HeaderLen(ToInt32(U.MsgLen(m))) + U.MsgLen(m)
  {
    hide PutUvarint, U.Body, U.BodyLen;
    PutUvarintLength(ToInt32(U.MsgLen(m)));
    TopicsLength(m.topics);
  }

  lemma {:induction false} TopicsLength(topics: seq<seq<byte>>)
    requires U.Body(topics).Ok?
    ensures |U.Body(topics).value| == U.BodyLen(topics)
    decreases |topics|
  {
    if topics != [] { TopicsLength(topics[1..]); }
  }

  method EncodeUnsubscribe(dst: array<byte>, lo: nat, hi: nat, m: U.Unsubscribe, nextId: uint16, stale: int)
      returns (r: Result<nat>)
    requires lo <= hi <= dst.Length
    modifies dst
    ensures r.Ok? <==>
              U.Encode(m, nextId).Ok? && lo + U.Len(m) <= hi && lo + HeaderLen(stale) + U.MsgLen(m) <= hi
    ensures r.Ok? ==> r.value == lo + U.Len(m) && dst[..r.value] == old(dst[..lo]) + U.Encode(m, nextId).value
    ensures forall k | 0 <= k < dst.Length && !(lo <= k < hi) :: dst[k] == old(dst[k])
  {
    hide EncodeHeader, ToInt32, PutUint16, U.Body, U.BodyLen;
    var ml := U.MsgLen(m);
    if hi - lo < HeaderLen(stale) + ml {
      return Err(ShortBuffer);
    }
    var remlen := ToInt32(ml);
    if U.Encode(m, nextId).Ok? { UnsubscribeLength(m, nextId); }
    HeaderBound(ml);
    if remlen > MAX_REMAINING_LENGTH || remlen < 0 {
      return Err(BadLength);
    }
    r := EncodeHeaderInto(dst, lo, hi, U.FirstByte(), remlen);
    if r.Err? {
      return;
    }
    r := Put(dst, r.value, hi, PutUint16(if m.pktid == 0 then nextId else m.pktid));
    r := EncodeTopics(dst, r.value, hi, m.topics);
  }

  // ------------------------------------------------------------------
  // CONNECT
  // ------------------------------------------------------------------

  /** A field that is written only under a condition. */
  method WriteField(dst: array<byte>, total: nat, hi: nat, present: bool, b: seq<byte>) returns (r: Result<nat>)
    requires total <= hi <= dst.Length
    modifies dst
    ensures r.Ok? <==> !present || (|b| <= MAX_LP_STRING && total + 2 + |b| <= hi)
    ensures r.Ok? ==> total <= r.value <= hi
    ensures forall k | 0 <= k < dst.Length && !(total <= k < hi) :: dst[k] == old(dst[k])
    ensures r.Ok? ==>
              && C.WriteIf(present, b).Ok? && r.value == total + |C.WriteIf(present, b).value|
              && dst[..r.value] == old(dst[..total]) + C.WriteIf(present, b).value
  {
    if present {
      r := WriteLPBytes(dst, total, hi, b);
    } else {
      r := Ok(total);
    }
  }

  /** The variable header: protocol name, version, flags and keep alive. */
  method EncodeFixed(dst: array<byte>, start: nat, hi: nat, m: C.Connect) returns (r: Result<nat>)
    requires start <= hi <= dst.Length && C.Supported(m.version)
    modifies dst
    ensures r.Ok? <==> start + 6 + |C.ProtoName(m.version)| <= hi
    ensures forall k | 0 <= k < dst.Length && !(start <= k < hi) :: dst[k] == old(dst[k])
    ensures r.Ok? ==>
              && r.value == start + 6 + |C.ProtoName(m.version)|
              && dst[..r.value] == old(dst[..start]) + WriteLP(C.ProtoName(m.version)).value
                                   + ([m.version, m.flags] + PutUint16(m.keepAlive))
  {
    C.ProtoNameShort(m.version);
    hide C.ProtoName, PutUint16;
    r := WriteLPBytes(dst, start, hi, C.ProtoName(m.version));
    if r.Err? {
      return;
    }
    r := Put(dst, r.value, hi, [m.version]);
    if r.Err? {
      return;
    }
    r := Put(dst, r.value, hi, [m.flags]);
    if r.Err? {
      return;
    }
    r := Put(dst, r.value, hi, PutUint16(m.keepAlive));
  }

  /** Every field that is to be written fits its length prefix. */
  predicate FieldsFit(m: C.Connect) {
    && |m.clientId| <= MAX_LP_STRING
    && (m.WillFlag() ==> |m.willTopic| <= MAX_LP_STRING && |m.willMessage| <= MAX_LP_STRING)
    && (C.WritesUsername(m) ==> |m.username| <= MAX_LP_STRING)
    && (C.WritesPassword(m) ==> |m.password| <= MAX_LP_STRING)
  }

  function FieldLen(present: bool, b: seq<byte>): nat { if present then 2 + |b| else 0 }

  function WillLen(m: C.Connect): nat {
    2 + |m.clientId| + FieldLen(m.WillFlag(), m.willTopic) + FieldLen(m.WillFlag(), m.willMessage)
  }

  function CredentialsLen(m: C.Connect): nat {
    FieldLen(C.WritesUsername(m), m.username) + FieldLen(C.WritesPassword(m), m.password)
  }

  /** The client id and the will. */
  method EncodeWill(dst: array<byte>, start: nat, hi: nat, m: C.Connect) returns (r: Result<nat>)
    requires start <= hi <= dst.Length
    modifies dst
    ensures forall k | 0 <= k < dst.Length && !(start <= k < hi) :: dst[k] == old(dst[k])
    ensures r.Ok? <==>
              && |m.clientId| <= MAX_LP_STRING
              && (m.WillFlag() ==> |m.willTopic| <= MAX_LP_STRING && |m.willMessage| <= MAX_LP_STRING)
              && start + WillLen(m) <= hi
    ensures r.Ok? ==>
              && WriteLP(m.clientId).Ok? && C.WriteIf(m.WillFlag(), m.willTopic).Ok?
              && C.WriteIf(m.WillFlag(), m.willMessage).Ok?
              && r.value == start + WillLen(m)
              && dst[..r.value] == old(dst[..start]) + WriteLP(m.clientId).value
                                   + C.WriteIf(m.WillFlag(), m.willTopic).value
                                   + C.WriteIf(m.WillFlag(), m.willMessage).value
  {
    FieldBytes(m.WillFlag(), m.willTopic);
    FieldBytes(m.WillFlag(), m.willMessage);
    FieldBytes(true, m.clientId);
    hide C.WriteIf, WriteLP;
    r := WriteLPBytes(dst, start, hi, m.clientId);
    if r.Err? {
      return;
    }
    r := WriteField(dst, r.value, hi, m.WillFlag(), m.willTopic);
    if r.Err? {
      return;
    }
    r := WriteField(dst, r.value, hi, m.WillFlag(), m.willMessage);
  }

  /** The user name and the password. */
  method EncodeCredentials(dst: array<byte>, start: nat, hi: nat, m: C.Connect) returns (r: Result<nat>)
    requires start <= hi <= dst.Length
    modifies dst
    ensures forall k | 0 <= k < dst.Length && !(start <= k < hi) :: dst[k] == old(dst[k])
    ensures r.Ok? <==>
              && (C.WritesUsername(m) ==> |m.username| <= MAX_LP_STRING)
              && (C.WritesPassword(m) ==> |m.password| <= MAX_LP_STRING)
              && start + CredentialsLen(m) <= hi
    ensures r.Ok? ==>
              && C.WriteIf(C.WritesUsername(m), m.username).Ok? && C.WriteIf(C.WritesPassword(m), m.password).Ok?
              && r.value == start + CredentialsLen(m)
              && dst[..r.value] == old(dst[..start]) + C.WriteIf(C.WritesUsername(m), m.username).value
                                   + C.WriteIf(C.WritesPassword(m), m.password).value
  {
    FieldBytes(C.WritesUsername(m), m.username);
    FieldBytes(C.WritesPassword(m), m.password);
    hide C.WriteIf, C.WritesUsername, C.WritesPassword;
    r := WriteField(dst, start, hi, C.WritesUsername(m), m.username);
    if r.Err? {
      return;
    }
    r := WriteField(dst, r.value, hi, C.WritesPassword(m), m.password);
  }

  lemma FieldBytes(c: bool, b: seq<byte>)
    ensures c && |b| <= MAX_LP_STRING ==> C.WriteIf(c, b) == WriteLP(b) && WriteLP(b).Ok?
    ensures C.WriteIf(c, b).Ok? <==> c ==> |b| <= MAX_LP_STRING
    ensures C.WriteIf(c, b).Ok? ==> |C.WriteIf(c, b).value| == FieldLen(c, b)
  {
  }

  /** When the body can be encoded, and of what it then consists. */
  lemma ConnectParts(m: C.Connect)
    requires C.Supported(m.version)
    ensures C.MsgLen(m) == 6 + |C.ProtoName(m.version)| + WillLen(m) + CredentialsLen(m)
    ensures C.EncodeBody(m).Ok? <==> FieldsFit(m)
    ensures FieldsFit(m) ==>
              && C.Writable(m) && ToInt32(C.MsgLen(m)) == C.MsgLen(m) && WriteLP(C.ProtoName(m.version)).Ok?
              && |C.EncodeBody(m).value| == C.MsgLen(m)
              && C.EncodeBody(m).value == WriteLP(C.ProtoName(m.version)).value
                                          + ([m.version, m.flags] + PutUint16(m.keepAlive) + C.PayloadBytes(m))
  {
    hide C.EncodeBody, WriteLP, C.PayloadBytes, C.WritesUsername, C.WritesPassword, PutUint16, C.WriteIf;
    C.ProtoNameShort(m.version);
    BodyFits(m);
    if FieldsFit(m) {
      ConnectShort(m);
      C.EncodeBodyIs(m);
    }
  }

  lemma ConnectShort(m: C.Connect)
    requires C.Supported(m.version) && FieldsFit(m)
    ensures C.MsgLen(m) <= MAX_REMAINING_LENGTH && ToInt32(C.MsgLen(m)) == C.MsgLen(m)
  {
    C.ProtoNameShort(m.version);
  }

  lemma BodyFits(m: C.Connect)
    requires C.Supported(m.version)
    ensures C.EncodeBody(m).Ok? <==> FieldsFit(m)
  {
    hide C.WritesUsername, C.WritesPassword, PutUint16;
    C.ProtoNameShort(m.version);
  }

  lemma BodyJoined(m: C.Connect, front: seq<byte>)
    requires C.Supported(m.version) && FieldsFit(m) && C.Writable(m) && C.EncodeBody(m).Ok?
    ensures front + C.EncodeBody(m).value
         == front + WriteLP(C.ProtoName(m.version)).value + ([m.version, m.flags] + PutUint16(m.keepAlive))
            + WriteLP(m.clientId).value + C.WriteIf(m.WillFlag(), m.willTopic).value
            + C.WriteIf(m.WillFlag(), m.willMessage).value
            + C.WriteIf(C.WritesUsername(m), m.username).value + C.WriteIf(C.WritesPassword(m), m.password).value
  {
    hide C.EncodeBody, C.ProtoName, PutUint16, WriteLP, C.WriteIf, C.MsgLen, C.WritesUsername;
    hide C.WritesPassword, ToInt32;
    ConnectParts(m);
    FieldBytes(true, m.clientId);
    FieldBytes(m.WillFlag(), m.willTopic);
    FieldBytes(m.WillFlag(), m.willMessage);
    FieldBytes(C.WritesUsername(m), m.username);
    FieldBytes(C.WritesPassword(m), m.password);
    var id := WriteLP(m.clientId).value;
    var wt, wm := C.WriteIf(m.WillFlag(), m.willTopic).value, C.WriteIf(m.WillFlag(), m.willMessage).value;
    var user := C.WriteIf(C.WritesUsername(m), m.username).value;
    var pass := C.WriteIf(C.WritesPassword(m), m.password).value;
    var proto, fixed := WriteLP(C.ProtoName(m.version)).value, [m.version, m.flags] + PutUint16(m.keepAlive);
    JoinedFive(front + proto + fixed, id, wt, wm, user, pass);
    JoinedThree(front, proto, fixed, C.PayloadBytes(m));
  }

  lemma JoinedThree(front: seq<byte>, a: seq<byte>, b: seq<byte>, c: seq<byte>)
    ensures front + (a + (b + c)) == front + a + b + c
  {
  }

  lemma JoinedFive(front: seq<byte>, a: seq<byte>, b: seq<byte>, c: seq<byte>, d: seq<byte>, e: seq<byte>)
    ensures front + (a + (b + (c + (d + e)))) == front + a + b + c + d + e
  {
    JoinedThree(front, a, b, c + (d + e));
    JoinedThree(front + a + b, c, d, e);
  }

  /** encodeMessage: everything after the fixed header. */
  method EncodeMessage(dst: array<byte>, start: nat, hi: nat, m: C.Connect) returns (r: Result<nat>)
    requires start <= hi <= dst.Length && C.Supported(m.version)
    modifies dst
    ensures r.Ok? <==> C.EncodeBody(m).Ok? && start + C.MsgLen(m) <= hi
    ensures forall k | 0 <= k < dst.Length && !(start <= k < hi) :: dst[k] == old(dst[k])
    ensures r.Ok? ==> r.value == start + C.MsgLen(m) && dst[..r.value] == old(dst[..start]) + C.EncodeBody(m).value
  {
    hide PutUint16, C.ProtoName, C.EncodeBody, C.PayloadBytes, C.MsgLen, C.Writable, WillLen, CredentialsLen;
    hide WriteLP, C.WriteIf, ToInt32, C.WritesUsername, C.WritesPassword;
    ConnectParts(m);
    ghost var front := dst[..start];
    r := EncodeFixed(dst, start, hi, m);
    if r.Err? {
      return;
    }
    r := EncodeWill(dst, r.value, hi, m);
    if r.Err? {
      return;
    }
    r := EncodeCredentials(dst, r.value, hi, m);
    if r.Ok? { BodyJoined(m, front); }
  }

  lemma ConnectLength(m: C.Connect)
    requires C.Encode(m).Ok?
    ensures |C.Encode(m).value| == C.Len(m) == HeaderLen(ToInt32(C.MsgLen(m))) + C.MsgLen(m)
  {
    ConnectParts(m);
    ConnectEncodes(m);
    hide C.EncodeBody, C.MsgLen, C.Writable, PutUvarint;
    PutUvarintLength(ToInt32(C.MsgLen(m)));
  }

  lemma ConnectEncodes(m: C.Connect)
    requires C.Supported(m.version)
    ensures var h := EncodeHeader(C.FirstByte(), ToInt32(C.MsgLen(m)));
            && (C.Encode(m).Ok? <==> h.Ok? && C.EncodeBody(m).Ok?)
            && (C.Encode(m).Ok? ==> C.Encode(m).value == h.value + C.EncodeBody(m).value)
    ensures C.Encode(m).Ok? ==> C.Len(m) == HeaderLen(ToInt32(C.MsgLen(m))) + C.MsgLen(m)
  {
    hide C.EncodeBody, C.MsgLen, PutUvarint;
  }

  method EncodeConnect(dst: array<byte>, lo: nat, hi: nat, m: C.Connect, stale: int) returns (r: Result<nat>)
    requires lo <= hi <= dst.Length
    modifies dst
    ensures r.Ok? <==> C.Encode(m).Ok? && lo + C.Len(m) <= hi && lo + HeaderLen(stale) + C.MsgLen(m) <= hi
    ensures r.Ok? ==> r.value == lo + C.Len(m) && dst[..r.value] == old(dst[..lo]) + C.Encode(m).value
    ensures forall k | 0 <= k < dst.Length && !(lo <= k < hi) :: dst[k] == old(dst[k])
  {
    hide EncodeHeader, ToInt32, C.EncodeBody, C.MsgLen, HeaderLen, C.Len;
    if !C.Supported(m.version) {
      return Err(BadVersion);
    }
    ConnectEncodes(m);
    hide C.Encode;
    var ml := C.MsgLen(m);
    var remlen := ToInt32(ml);
    if hi - lo < HeaderLen(stale) + ml {
      return Err(ShortBuffer);
    }
    LengthOk(C.FirstByte(), remlen);
    if remlen > MAX_REMAINING_LENGTH || remlen < 0 {
      return Err(BadLength);
    }
    r := EncodeHeaderInto(dst, lo, hi, C.FirstByte(), remlen);
    if r.Err? {
      return;
    }
    r := EncodeMessage(dst, r.value, hi, m);
  }

  lemma LengthOk(first: byte, remlen: int)
    ensures EncodeHeader(first, remlen).Ok? ==> 0 <= remlen <= MAX_REMAINING_LENGTH
  {
  }

  // ------------------------------------------------------------------
  // Acknowledgements, and messages that have not changed
  // ------------------------------------------------------------------

  method EncodeAck(dst: array<byte>, lo: nat, hi: nat, t: MessageType, pktid: uint16, stale: int)
      returns (r: Result<nat>)
    requires A.IsAck(t) && lo <= hi <= dst.Length
    modifies dst
    ensures r.Ok? <==> lo + 4 <= hi && lo + HeaderLen(stale) + 2 <= hi
    ensures r.Ok? ==> r.value == lo + 4 && dst[..r.value] == old(dst[..lo]) + A.Encode(t, pktid)
    ensures forall k | 0 <= k < dst.Length && !(lo <= k < hi) :: dst[k] == old(dst[k])
  {
    hide PutUint16, PutUvarint;
    if hi - lo < HeaderLen(stale) + 2 {
      return Err(ShortBuffer);
    }
    AckHeader(t);
    r := EncodeHeaderInto(dst, lo, hi, TypeByte(t, DefaultFlags(t)), 2);
    if r.Err? {
      return;
    }
    r := Put(dst, r.value, hi, PutUint16(pktid));
  }

  lemma AckHeader(t: MessageType)
    requires A.IsAck(t)
    ensures EncodeHeader(TypeByte(t, DefaultFlags(t)), 2) == Ok([TypeByte(t, DefaultFlags(t))] + PutUvarint(2))
    ensures HeaderLen(2) == 2
  {
    hide PutUvarint;
    TypeByteSplits(t, DefaultFlags(t));
    CodeInjective(TypeOf(TypeByte(t, DefaultFlags(t)) / 16), t);
  }

  /** A message that has not changed since it was decoded is copied. */
  method EncodeUnchanged(dst: array<byte>, lo: nat, hi: nat, packet: seq<byte>) returns (r: Result<nat>)
    requires lo <= hi <= dst.Length
    modifies dst
    ensures r.Ok? <==> lo + |packet| <= hi
    ensures r.Ok? ==> r.value == lo + |packet| && dst[..r.value] == old(dst[..lo]) + packet
    ensures forall k | 0 <= k < dst.Length && !(lo <= k < hi) :: dst[k] == old(dst[k])
  {
    if hi - lo < |packet| {
      return Err(ShortBuffer);
    }
    r := Put(dst, lo, hi, packet);
  }
}
