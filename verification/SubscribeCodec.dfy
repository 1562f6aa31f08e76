/** SUBSCRIBE on the wire: encoding, decoding and their round trip. */
module SubscribeCodec {
  import opened Bytes
  import opened MessageTypes
  import opened Wire

  /** topics[i] is asked for with qos[i]; pktid is 0 when none is set. */
  datatype Subscribe = Subscribe(pktid: uint16, topics: seq<seq<byte>>, qos: seq<byte>)

  /** What follows the packet id. */
  function Body(topics: seq<seq<byte>>, qos: seq<byte>): Result<seq<byte>>
    requires |topics| == |qos|
  {
    if topics == [] then Ok([])
    else
      var t :- WriteLP(topics[0]);
      var rest :- Body(topics[1..], qos[1..]);
      Ok(t + [qos[0]] + rest)
  }

  function BodyLen(topics: seq<seq<byte>>): nat {
    if topics == [] then 0 else 2 + |topics[0]| + 1 + BodyLen(topics[1..])
  }

  function MsgLen(m: Subscribe): nat {
    2 + BodyLen(m.topics)
  }

  function Len(m: Subscribe): nat {
    var remlen := ToInt32(MsgLen(m));
    if remlen > MAX_REMAINING_LENGTH || remlen < 0 then 0 else HeaderLen(remlen) + MsgLen(m)
  }

  function FirstByte(): byte {
    TypeByte(SUBSCRIBE, DefaultFlags(SUBSCRIBE))
  }

  /** Encode of a changed message; nextId is the next number of the packet id generator. */
  function Encode(m: Subscribe, nextId: uint16): Result<seq<byte>>
    requires |m.topics| == |m.qos|
  {
    var header :- EncodeHeader(FirstByte(), ToInt32(MsgLen(m)));
    var body :- Body(m.topics, m.qos);
    Ok(header + PutUint16(if m.pktid == 0 then nextId else m.pktid) + body)
  }

  /** What the topic loop of Decode yields: the lists and how many bytes it used. */
  type Lists = Result<(seq<seq<byte>>, seq<byte>, nat)>

  function Prepend(ts: seq<seq<byte>>, qs: seq<byte>, used: nat, r: Lists): Lists {
    match r
    case Ok((ts', qs', used')) => Ok((ts + ts', qs + qs', used + used'))
    case Err(e) => Err(e)
  }

  /** The topic loop of Decode from the front of s with remlen bytes to go. */
  function DecodeBody(s: seq<byte>, remlen: int): Lists
    decreases |s|
  {
    if remlen <= 0 then Ok(([], [], 0))
    else
      var (t, n) :- ReadLP(s);
      if n >= |s| then Err(OutOfRange)
      else Prepend([t], [s[n]], n + 1, DecodeBody(s[n + 1..], remlen - n - 1))
  }

  function Decode(src: seq<byte>): Result<(Subscribe, nat)> {
    var h :- DecodeHeader(SUBSCRIBE, src);
    if h.n + 2 > |src| then Err(OutOfRange)
    else
      var (ts, qs, used) :- DecodeBody(src[h.n + 2..], h.remlen - 2);
      if ts == [] then Err(EmptyTopicList)
      else Ok((Subscribe(Uint16(src[h.n..h.n + 2]), ts, qs), h.n + 2 + used))
  }

  lemma PrependTwice(ts: seq<seq<byte>>, qs: seq<byte>, used: nat, t: seq<byte>, q: byte, n: nat, r: Lists)
    ensures Prepend(ts, qs, used, Prepend([t], [q], n, r)) == Prepend(ts + [t], qs + [q], used + n, r)
    ensures Prepend([], [], 0, r) == r
  {
    if r.Ok? {
      var (ts', qs', u) := r.value;
      assert ts + ([t] + ts') == (ts + [t]) + ts' && qs + ([q] + qs') == (qs + [q]) + qs';
      assert [] + ts' == ts' && [] + qs' == qs';
    }
  }

  /** The same loop as it is written: running lists and counters. */
  method DecodeTopics(src: seq<byte>, start: nat, remlen0: int) returns (r: Lists)
    requires start <= |src|
    ensures r == DecodeBody(src[start..], remlen0)
  {
    hide ReadLP, Prepend, DecodeBody;
    var topics: seq<seq<byte>> := [];
    var qos: seq<byte> := [];
    var total, remlen := start, remlen0;
    ghost var whole := DecodeBody(src[start..], remlen0);
    PrependTwice([], [], 0, [], 0, 0, whole);
    while remlen > 0
      invariant start <= total <= |src|
      invariant whole == Prepend(topics, qos, total - start, DecodeBody(src[total..], remlen))
      decreases |src| - total
    {
      var lp := ReadLP(src[total..]);
      DecodeStep(src, total, remlen);
      if lp.Err? {
        PrependError(topics, qos, total - start, lp.error);
        return Err(lp.error);
      }
      var (t, n) := lp.value;
      if total + n >= |src| {
        PrependError(topics, qos, total - start, OutOfRange);
        return Err(OutOfRange);
      }
      ghost var next := DecodeBody(src[total + n + 1..], remlen - n - 1);
      PrependTwice(topics, qos, total - start, t, src[total + n], n + 1, next);
      topics := topics + [t];
      qos := qos + [src[total + n]];
      total := total + n + 1;
      remlen := remlen - n - 1;
    }
    DecodeDone(src[total..], remlen);
    PrependEmpty(topics, qos, total - start);
    return Ok((topics, qos, total - start));
  }

  /** One round of the loop. */
  lemma DecodeStep(src: seq<byte>, total: nat, remlen: int)
    requires total <= |src| && remlen > 0
    ensures var lp := ReadLP(src[total..]);
            var body := DecodeBody(src[total..], remlen);
            && (lp.Err? ==> body == Err(lp.error))
            && (lp.Ok? ==>
                  var (t, n) := lp.value;
                  if total + n >= |src| then body == Err(OutOfRange)
                  else body == Prepend([t], [src[total + n]], n + 1, DecodeBody(src[total + n + 1..], remlen - n - 1)))
  {
    hide ReadLP, Prepend;
    var lp := ReadLP(src[total..]);
    if lp.Ok? && total + lp.value.1 < |src| { Shift(src, total, lp.value.1); }
  }

  lemma DecodeDone(s: seq<byte>, remlen: int)
    requires remlen <= 0
    ensures DecodeBody(s, remlen) == Ok(([], [], 0))
  {
  }

  lemma PrependError(ts: seq<seq<byte>>, qs: seq<byte>, used: nat, e: Error)
    ensures Prepend(ts, qs, used, Err(e)) == Err(e)
  {
  }

  lemma PrependEmpty(ts: seq<seq<byte>>, qs: seq<byte>, used: nat)
    ensures Prepend(ts, qs, used, Ok(([], [], 0))) == Ok((ts, qs, used))
  {
    assert ts + [] == ts && qs + [] == qs;
  }

  lemma Shift(src: seq<byte>, total: nat, n: nat)
    requires total + n < |src|
    ensures src[total..][n + 1..] == src[total + n + 1..] && src[total..][n] == src[total + n]
  {
  }

  predicate WellFormed(m: Subscribe) {
    && |m.topics| == |m.qos| && m.topics != [] && m.pktid != 0
    && MsgLen(m) <= MAX_REMAINING_LENGTH
    && forall t | t in m.topics :: |t| <= MAX_LP_STRING
  }

  lemma DecodeBodyFront(t: seq<byte>, q: byte, s: seq<byte>, remlen: int)
    requires |t| <= MAX_LP_STRING && remlen > 0
    ensures DecodeBody(WriteLP(t).value + ([q] + s), remlen)
         == Prepend([t], [q], |t| + 3, DecodeBody(s, remlen - |t| - 3))
  {
    hide ReadLP, Prepend;
    var w := WriteLP(t).value + ([q] + s);
    LPRoundTrip(t, [q] + s);
    assert w[2 + |t|..] == [q] + s;
    assert w[2 + |t|] == q && w[3 + |t|..] == s;
  }

  lemma {:induction false} BodyDecodes(topics: seq<seq<byte>>, qos: seq<byte>, rest: seq<byte>)
    requires |topics| == |qos| && forall t | t in topics :: |t| <= MAX_LP_STRING
    ensures Body(topics, qos).Ok? && |Body(topics, qos).value| == BodyLen(topics)
    ensures DecodeBody(Body(topics, qos).value + rest, BodyLen(topics)) == Ok((topics, qos, BodyLen(topics)))
    decreases |topics|
  {
    if topics != [] {
      assert topics[0] in topics && forall t | t in topics[1..] :: t in topics;
      BodyDecodes(topics[1..], qos[1..], rest);
      BodyDecodesStep(topics, qos, rest);
    }
  }

  lemma BodyDecodesStep(topics: seq<seq<byte>>, qos: seq<byte>, rest: seq<byte>)
    requires |topics| == |qos| && topics != [] && |topics[0]| <= MAX_LP_STRING
    requires Body(topics[1..], qos[1..]).Ok? && |Body(topics[1..], qos[1..]).value| == BodyLen(topics[1..])
    requires DecodeBody(Body(topics[1..], qos[1..]).value + rest, BodyLen(topics[1..]))
          == Ok((topics[1..], qos[1..], BodyLen(topics[1..])))
    ensures Body(topics, qos).Ok? && |Body(topics, qos).value| == BodyLen(topics)
    ensures DecodeBody(Body(topics, qos).value + rest, BodyLen(topics)) == Ok((topics, qos, BodyLen(topics)))
  {
    hide DecodeBody, WriteLP, Body;
    BodyStep(topics, qos, rest);
    var body := Body(topics[1..], qos[1..]).value;
    DecodeBodyFront(topics[0], qos[0], body + rest, BodyLen(topics));
    assert [topics[0]] + topics[1..] == topics && [qos[0]] + qos[1..] == qos;
  }

  lemma BodyStep(topics: seq<seq<byte>>, qos: seq<byte>, rest: seq<byte>)
    requires |topics| == |qos| && topics != [] && |topics[0]| <= MAX_LP_STRING && Body(topics[1..], qos[1..]).Ok?
    ensures Body(topics, qos).Ok? && WriteLP(topics[0]).Ok?
    ensures |Body(topics, qos).value| == 3 + |topics[0]| + |Body(topics[1..], qos[1..]).value|
    ensures Body(topics, qos).value + rest
         == WriteLP(topics[0]).value + ([qos[0]] + (Body(topics[1..], qos[1..]).value + rest))
  {
    hide WriteLP;
    WriteLPLength(topics[0]);
    var t, b := WriteLP(topics[0]).value, Body(topics[1..], qos[1..]).value;
    assert Body(topics, qos) == Ok(t + [qos[0]] + b);
    assert (t + [qos[0]] + b) + rest == t + ([qos[0]] + (b + rest));
  }

  /** Decode undoes Encode, Encode writes exactly Len() bytes, and what follows does not matter. */
  lemma RoundTrip(m: Subscribe, nextId: uint16, rest: seq<byte>)
    requires WellFormed(m)
    ensures Encode(m, nextId).Ok? && |Encode(m, nextId).value| == Len(m)
    ensures Decode(Encode(m, nextId).value + rest) == Ok((m, Len(m)))
  {
    hide Body, DecodeBody, DecodeHeader, EncodeHeader, BodyLen, HeaderLen, ToInt32, PutUint16;
    TypeByteSplits(SUBSCRIBE, DefaultFlags(SUBSCRIBE));
    HeaderEncodes(SUBSCRIBE, FirstByte(), MsgLen(m));
    BodyDecodes(m.topics, m.qos, rest);
    var h := EncodeHeader(FirstByte(), MsgLen(m)).value;
    var id, body := PutUint16(m.pktid), Body(m.topics, m.qos).value;
    var src := h + id + body + rest;
    Parts(h, id, body, rest);
    HeaderRoundTrip(SUBSCRIBE, FirstByte(), MsgLen(m), id + (body + rest));
    Uint16RoundTrip(m.pktid, []);
    assert id + [] == id;
  }

  /** The message that Encode puts on the wire: without packet id it gets the next one. */
  function Sent(m: Subscribe, nextId: uint16): Subscribe {
    m.(pktid := if m.pktid == 0 then nextId else m.pktid)
  }

  /** Decode gives the message that was put on the wire. */
  lemma SentArrives(m: Subscribe, nextId: uint16, rest: seq<byte>)
    requires WellFormed(Sent(m, nextId))
    ensures Encode(m, nextId).Ok? && |Encode(m, nextId).value| == Len(m)
    ensures Encode(m, nextId) == Encode(Sent(m, nextId), nextId)
    ensures Decode(Encode(m, nextId).value + rest) == Ok((Sent(m, nextId), Len(m)))
  {
    hide EncodeHeader, Body, ToInt32, Decode, BodyLen;
    RoundTrip(Sent(m, nextId), nextId, rest);
  }
}
