/**
 UNSUBSCRIBE on the wire. The decode loop subtracts one byte too many per topic, so it can
 stop before the list is complete; the exact condition is proved here.
 */
module UnsubscribeCodec {
  import opened Bytes
  import opened MessageTypes
  import opened Wire

  datatype Unsubscribe = Unsubscribe(pktid: uint16, topics: seq<seq<byte>>)

  function Body(topics: seq<seq<byte>>): Result<seq<byte>> {
    if topics == [] then Ok([])
    else
      var t :- WriteLP(topics[0]);
      var rest :- Body(topics[1..]);
      Ok(t + rest)
  }

  function BodyLen(topics: seq<seq<byte>>): nat {
    if topics == [] then 0 else 2 + |topics[0]| + BodyLen(topics[1..])
  }

  function MsgLen(m: Unsubscribe): nat {
    2 + BodyLen(m.topics)
  }

  function Len(m: Unsubscribe): nat {
    var remlen := ToInt32(MsgLen(m));
    if remlen > MAX_REMAINING_LENGTH || remlen < 0 then 0 else HeaderLen(remlen) + MsgLen(m)
  }

  function FirstByte(): byte {
    TypeByte(UNSUBSCRIBE, DefaultFlags(UNSUBSCRIBE))
  }

  function Encode(m: Unsubscribe, nextId: uint16): Result<seq<byte>> {
    var header :- EncodeHeader(FirstByte(), ToInt32(MsgLen(m)));
    var body :- Body(m.topics);
    Ok(header + PutUint16(if m.pktid == 0 then nextId else m.pktid) + body)
  }

  /** The decoded topics and the bytes used. */
  type TopicList = Result<(seq<seq<byte>>, nat)>

  function Prepend(ts: seq<seq<byte>>, used: nat, r: TopicList): TopicList {
    match r
    case Ok((ts', used')) => Ok((ts + ts', used + used'))
    case Err(e) => Err(e)
  }

  /** The topic loop from the front of s: each topic costs its n bytes and one more. */
  function DecodeBody(s: seq<byte>, remlen: int): TopicList
    decreases |s|
  {
    if remlen <= 0 then Ok(([], 0))
    else
      var (t, n) :- ReadLP(s);
      Prepend([t], n, DecodeBody(s[n..], remlen - n - 1))
  }

  function Decode(src: seq<byte>): Result<(Unsubscribe, nat)> {
    var h :- DecodeHeader(UNSUBSCRIBE, src);
    if h.n + 2 > |src| then Err(OutOfRange)
    else
      var (ts, used) :- DecodeBody(src[h.n + 2..], h.remlen - 2);
      if ts == [] then Err(EmptyTopicList)
      else Ok((Unsubscribe(Uint16(src[h.n..h.n + 2]), ts), h.n + 2 + used))
  }

  lemma PrependLaws(ts: seq<seq<byte>>, used: nat, t: seq<byte>, n: nat, r: TopicList, e: Error)
    ensures Prepend(ts, used, Prepend([t], n, r)) == Prepend(ts + [t], used + n, r)
    ensures Prepend([], 0, r) == r
    ensures Prepend(ts, used, Err(e)) == Err(e)
    ensures Prepend(ts, used, Ok(([], 0))) == Ok((ts, used))
  {
    assert ts + [] == ts;
    if r.Ok? {
      var (ts', u) := r.value;
      assert ts + ([t] + ts') == (ts + [t]) + ts';
      assert [] + ts' == ts';
    }
  }

  /** The same loop as it is written. */
  method DecodeTopics(src: seq<byte>, start: nat, remlen0: int) returns (r: TopicList)
    requires start <= |src|
    ensures r == DecodeBody(src[start..], remlen0)
  {
    hide ReadLP, Prepend;
    var topics: seq<seq<byte>> := [];
    var total, remlen := start, remlen0;
    ghost var whole := DecodeBody(src[start..], remlen0);
    PrependLaws([], 0, [], 0, whole, OutOfRange);
    while remlen > 0
      invariant start <= total <= |src|
      invariant whole == Prepend(topics, total - start, DecodeBody(src[total..], remlen))
      decreases |src| - total
    {
      var lp := ReadLP(src[total..]);
      if lp.Err? {
        PrependLaws(topics, total - start, [], 0, whole, lp.error);
        return Err(lp.error);
      }
      var (t, n) := lp.value;
      ReadLPBounds(src[total..]);
      assert src[total..][n..] == src[total + n..];
      PrependLaws(topics, total - start, t, n, DecodeBody(src[total + n..], remlen - n - 1), OutOfRange);
      topics := topics + [t];
      total := total + n;
      remlen := remlen - n - 1;
    }
    PrependLaws(topics, total - start, [], 0, whole, OutOfRange);
    return Ok((topics, total - start));
  }

  lemma ReadLPBounds(s: seq<byte>)
    requires ReadLP(s).Ok?
    ensures 2 <= ReadLP(s).value.1 <= |s|
  {
  }

  // ------------------------------------------------------------------
  // How many topics come through
  // ------------------------------------------------------------------

  /** How many topics the loop reads when `debt` bytes too many have been subtracted so far. */
  function Seen(topics: seq<seq<byte>>, debt: nat): (k: nat)
    ensures k <= |topics|
  {
    if topics == [] || BodyLen(topics) <= debt then 0 else 1 + Seen(topics[1..], debt + 1)
  }

  lemma DecodeBodyFront(t: seq<byte>, s: seq<byte>, remlen: int)
    requires |t| <= MAX_LP_STRING && remlen > 0
    ensures DecodeBody(WriteLP(t).value + s, remlen) == Prepend([t], |t| + 2, DecodeBody(s, remlen - |t| - 3))
  {
    hide ReadLP, Prepend;
    LPRoundTrip(t, s);
  }

  lemma BodyStep(topics: seq<seq<byte>>, rest: seq<byte>)
    requires topics != [] && |topics[0]| <= MAX_LP_STRING && Body(topics[1..]).Ok?
    ensures Body(topics).Ok? && WriteLP(topics[0]).Ok?
    ensures |Body(topics).value| == 2 + |topics[0]| + |Body(topics[1..]).value|
    ensures Body(topics).value + rest == WriteLP(topics[0]).value + (Body(topics[1..]).value + rest)
  {
    hide WriteLP;
    WriteLPLength(topics[0]);
    var t, b := WriteLP(topics[0]).value, Body(topics[1..]).value;
    assert Body(topics) == Ok(t + b);
    assert (t + b) + rest == t + (b + rest);
  }

  lemma DecodeBodyDone(s: seq<byte>, remlen: int)
    requires remlen <= 0
    ensures DecodeBody(s, remlen) == Ok(([], 0))
  {
  }

  lemma {:induction false} BodyDecodes(topics: seq<seq<byte>>, debt: nat, rest: seq<byte>)
    requires forall t | t in topics :: |t| <= MAX_LP_STRING
    ensures Body(topics).Ok? && |Body(topics).value| == BodyLen(topics)
    ensures DecodeBody(Body(topics).value + rest, BodyLen(topics) - debt)
         == Ok((topics[..Seen(topics, debt)], BodyLen(topics[..Seen(topics, debt)])))
    decreases |topics|
  {
    hide Body, DecodeBody, BodyLen, Seen;
    if topics == [] {
      BodyDecodesEmpty(debt, rest);
    } else {
      assert topics[0] in topics && forall t | t in topics[1..] :: t in topics;
      BodyDecodes(topics[1..], debt + 1, rest);
      BodyDecodesStep(topics, debt, rest);
    }
  }

  lemma BodyDecodesEmpty(debt: nat, rest: seq<byte>)
    ensures Body([]) == Ok([]) && BodyLen([]) == 0 && Seen([], debt) == 0
    ensures DecodeBody([] + rest, 0 - debt) == Ok(([], 0))
  {
  }

  lemma BodyDecodesStep(topics: seq<seq<byte>>, debt: nat, rest: seq<byte>)
    requires topics != [] && |topics[0]| <= MAX_LP_STRING
    requires Body(topics[1..]).Ok? && |Body(topics[1..]).value| == BodyLen(topics[1..])
    requires DecodeBody(Body(topics[1..]).value + rest, BodyLen(topics[1..]) - (debt + 1))
          == Ok((topics[1..][..Seen(topics[1..], debt + 1)], BodyLen(topics[1..][..Seen(topics[1..], debt + 1)])))
    ensures Body(topics).Ok? && |Body(topics).value| == BodyLen(topics)
    ensures DecodeBody(Body(topics).value + rest, BodyLen(topics) - debt)
         == Ok((topics[..Seen(topics, debt)], BodyLen(topics[..Seen(topics, debt)])))
  {
    hide DecodeBody, WriteLP, Body;
    BodyStep(topics, rest);
    if BodyLen(topics) <= debt {
      DecodeBodyDone(Body(topics).value + rest, BodyLen(topics) - debt);
      assert topics[..0] == [];
    } else {
      DecodeBodyFront(topics[0], Body(topics[1..]).value + rest, BodyLen(topics) - debt);
      var k := Seen(topics[1..], debt + 1);
      assert topics[..k + 1] == [topics[0]] + topics[1..][..k];
      assert topics[..k + 1][1..] == topics[1..][..k];
    }
  }

  /** The whole list comes through exactly when its last topic is longer than the debt by then. */
  lemma {:induction false} SeenAll(topics: seq<seq<byte>>, debt: nat)
    requires topics != []
    ensures Seen(topics, debt) == |topics| <==> debt + |topics| <= 2 + |topics[|topics| - 1]|
    decreases |topics|
  {
    if |topics| == 1 {
      assert topics[1..] == [];
    } else {
      SeenAll(topics[1..], debt + 1);
      LastFits(topics);
    }
  }

  lemma {:induction false} LastFits(topics: seq<seq<byte>>)
    requires topics != []
    ensures 2 + |topics[|topics| - 1]| <= BodyLen(topics)
    decreases |topics|
  {
    if |topics| > 1 { LastFits(topics[1..]); }
  }

  predicate WellFormed(m: Unsubscribe) {
    && m.topics != [] && m.pktid != 0 && MsgLen(m) <= MAX_REMAINING_LENGTH
    && forall t | t in m.topics :: |t| <= MAX_LP_STRING
  }

  /** Decoding an encoded message always succeeds with a non-empty prefix of its topics. */
  lemma DecodesPrefix(m: Unsubscribe, nextId: uint16, rest: seq<byte>)
    requires WellFormed(m)
    ensures Encode(m, nextId).Ok? && |Encode(m, nextId).value| == Len(m)
    ensures var k := Seen(m.topics, 0);
            && 0 < k <= |m.topics|
            && Decode(Encode(m, nextId).value + rest)
               == Ok((m.(topics := m.topics[..k]), HeaderLen(MsgLen(m)) + 2 + BodyLen(m.topics[..k])))
  {
    hide Body, DecodeBody, DecodeHeader, EncodeHeader, BodyLen, HeaderLen, ToInt32, PutUint16, Seen;
    TypeByteSplits(UNSUBSCRIBE, DefaultFlags(UNSUBSCRIBE));
    HeaderEncodes(UNSUBSCRIBE, FirstByte(), MsgLen(m));
    BodyDecodes(m.topics, 0, rest);
    FirstSeen(m.topics);
    var h := EncodeHeader(FirstByte(), MsgLen(m)).value;
    var id, body := PutUint16(m.pktid), Body(m.topics).value;
    Parts(h, id, body, rest);
    HeaderRoundTrip(UNSUBSCRIBE, FirstByte(), MsgLen(m), id + (body + rest));
    Uint16RoundTrip(m.pktid, []);
    assert id + [] == id;
  }

  lemma FirstSeen(topics: seq<seq<byte>>)
    requires topics != []
    ensures Seen(topics, 0) > 0
  {
  }

  /** The message that Encode puts on the wire: without packet id it gets the next one. */
  function Sent(m: Unsubscribe, nextId: uint16): Unsubscribe {
    m.(pktid := if m.pktid == 0 then nextId else m.pktid)
  }

  lemma EncodesSent(m: Unsubscribe, nextId: uint16)
    ensures Encode(m, nextId) == Encode(Sent(m, nextId), nextId) && Len(m) == Len(Sent(m, nextId))
  {
    hide EncodeHeader, Body, ToInt32;
  }

  /** The round trip holds exactly when there are at most 2 + (length of the last topic) topics. */
  lemma RoundTripExact(m: Unsubscribe, nextId: uint16, rest: seq<byte>)
    requires WellFormed(m)
    ensures Encode(m, nextId).Ok?
    ensures Decode(Encode(m, nextId).value + rest) == Ok((m, Len(m)))
       <==> |m.topics| <= 2 + |m.topics[|m.topics| - 1]|
  {
    hide Encode, Decode, Seen;
    DecodesPrefix(m, nextId, rest);
    SeenAll(m.topics, 0);
    var k := Seen(m.topics, 0);
    if k == |m.topics| {
      assert m.topics[..k] == m.topics;
    } else {
      assert |m.topics[..k]| != |m.topics|;
    }
  }

  /** Four one-byte topics: the fourth is lost. */
  lemma LosesTopics()
    ensures var m := Unsubscribe(1, [[97], [98], [99], [100]]);
            && WellFormed(m) && Encode(m, 0).Ok?
            && Decode(Encode(m, 0).value).Ok?
            && Decode(Encode(m, 0).value).value.0 == m.(topics := [[97], [98], [99]])
  {
    hide Encode, Decode;
    var m := Unsubscribe(1, [[97], [98], [99], [100]]);
    var ts: seq<seq<byte>> := m.topics;
    assert ts[1..] == [[98], [99], [100]] && ts[2..] == [[99], [100]] && ts[3..] == [[100]];
    assert ts[1..][1..] == ts[2..] && ts[2..][1..] == ts[3..];
    assert |ts[3..][1..]| == 0;
    assert BodyLen(ts[3..]) == 3 && BodyLen(ts[2..]) == 6 && BodyLen(ts[1..]) == 9 && BodyLen(ts) == 12;
    assert Seen(ts[3..], 3) == 0 && Seen(ts[2..], 2) == 1 && Seen(ts[1..], 1) == 2 && Seen(ts, 0) == 3;
    DecodesPrefix(m, 0, []);
    assert Encode(m, 0).value + [] == Encode(m, 0).value;
    assert ts[..3] == [[97], [98], [99]];
  }
}
