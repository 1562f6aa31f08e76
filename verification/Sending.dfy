/**
 writeMessage: a message is encoded straight into the output ring when its bytes do not wrap, and
 through a temporary buffer when they do. Both ways run the encoders on a slice, and the stream
 grows by the same bytes.
 */
module Sending {
  import opened Bits
  import opened Bytes
  import opened Delivery
  import opened Encoders
  import opened RingBuffer
  import opened RingProtocol
  import opened RingRuns
  import opened Wire

  import C = ConnectCodec
  import P = PublishCodec
  import S = SubscribeCodec
  import U = UnsubscribeCodec

  /** A message to send: built or edited here, or as it was received. */
  datatype Outgoing = Changed(m: Message, nextId: uint16) | Unchanged(packet: seq<byte>)

  predicate Ready(o: Outgoing) {
    o.Changed? ==> Encodable(o.m)
  }

  function EncodingOf(o: Outgoing): Result<seq<byte>>
    requires Ready(o)
  {
    match o
    case Changed(m, nextId) => Encoding(m, nextId)
    case Unchanged(packet) => Ok(packet)
  }

  function LengthOf(o: Outgoing): nat {
    match o
    case Changed(m, _) => Length(m)
    case Unchanged(packet) => |packet|
  }

  /** Whenever a message can be encoded, it takes Len() bytes. */
  lemma EncodingLength(o: Outgoing)
    requires Ready(o) && EncodingOf(o).Ok?
    ensures |EncodingOf(o).value| == LengthOf(o)
  {
    if o.Changed? {
      hide P.Encode, S.Encode, U.Encode, C.Encode, P.Len, S.Len, U.Len, C.Len;
      match o.m
      case Connect(c) => ConnectLength(c);
      case Publish(p) => PublishLength(p, o.nextId);
      case Subscribe(s) => SubscribeLength(s, o.nextId);
      case Unsubscribe(u) => UnsubscribeLength(u, o.nextId);
      case Ack(t, id) => AckIsPacket(t, id);
    }
  }

  /** Encode into dst[lo..hi], after Len() has set the remaining length. */
  method EncodeInto(dst: array<byte>, lo: nat, hi: nat, o: Outgoing) returns (r: Result<nat>)
    requires Ready(o) && lo <= hi <= dst.Length
    modifies dst
    ensures r.Ok? <==> EncodingOf(o).Ok? && lo + LengthOf(o) <= hi
    ensures r.Ok? ==> r.value == lo + LengthOf(o) && dst[..r.value] == old(dst[..lo]) + EncodingOf(o).value
    ensures forall k | 0 <= k < dst.Length && !(lo <= k < hi) :: dst[k] == old(dst[k])
  {
    hide P.Encode, S.Encode, U.Encode, C.Encode, P.Len, S.Len, U.Len, C.Len, ToInt32, HeaderLen;
    hide C.MsgLen, S.MsgLen, U.MsgLen;
    match o {
      case Unchanged(packet) =>
        r := EncodeUnchanged(dst, lo, hi, packet);
      case Changed(Connect(c), _) =>
        if C.Encode(c).Ok? { ConnectLength(c); }
        r := EncodeConnect(dst, lo, hi, c, ToInt32(C.MsgLen(c)));
      case Changed(Publish(p), nextId) =>
        r := EncodePublish(dst, lo, hi, p, nextId);
      case Changed(Subscribe(s), nextId) =>
        if S.Encode(s, nextId).Ok? { SubscribeLength(s, nextId); }
        r := EncodeSubscribe(dst, lo, hi, s, nextId, ToInt32(S.MsgLen(s)));
      case Changed(Unsubscribe(u), nextId) =>
        if U.Encode(u, nextId).Ok? { UnsubscribeLength(u, nextId); }
        r := EncodeUnsubscribe(dst, lo, hi, u, nextId, ToInt32(U.MsgLen(u)));
      case Changed(Ack(t, id), _) =>
        AckHeader(t);
        r := EncodeAck(dst, lo, hi, t, id, 2);
    }
  }

  datatype Outcome = Delivered(n: nat) | NotEncoded | OutputFull | OutputClosed

  class Sender {
    const out: Buffer
    var outtmp: array<byte>

    ghost predicate Valid()
      reads this, out, out.buf
    {
      out.Valid() && outtmp != out.buf
    }

    constructor (ring: Buffer)
      requires ring.Valid()
      ensures Valid() && out == ring && fresh(outtmp)
    {
      out := ring;
      outtmp := new byte[0];
    }

    /** The branch for messages that would wrap: encode into outtmp, then Write. */
    method SendCopy(o: Outgoing) returns (r: Outcome)
      requires Valid() && Ready(o) && !out.done && |out.Unread()| + LengthOf(o) <= out.size
      modifies this, outtmp, out, out.buf
      ensures Valid() && out.ccur == old(out.ccur) && out.done == old(out.done) && out.tmp == old(out.tmp)
      ensures outtmp == old(outtmp) || fresh(outtmp)
      ensures r == if EncodingOf(o).Ok? then Delivered(LengthOf(o)) else NotEncoded
      ensures out.Unread() == old(out.Unread()) + (if EncodingOf(o).Ok? then EncodingOf(o).value else [])
      ensures Reaches(old(out.Snapshot()), out.Snapshot())
    {
      hide Inv, Reaches, EncodingOf, LengthOf;
      ghost var s, u := out.Snapshot(), out.Unread();
      ReachesSelf(s);
      var l := LengthOf(o);
      if outtmp.Length < l {
        outtmp := new byte[l](_ => 0);
      }
      var e := EncodeInto(outtmp, 0, outtmp.Length, o);
      assert out.Snapshot() == s && out.Unread() == u;
      if e.Err? {
        return NotEncoded;
      }
      EncodingLength(o);
      var m, _ := out.Write(outtmp[..e.value]);
      return Delivered(m);
    }

    /** The branch for messages that fit before the end of the ring: encode into the ring, then commit. */
    method SendInPlace(lo: nat, o: Outgoing) returns (r: Outcome)
      requires Valid() && Ready(o) && !out.done && |out.Unread()| + LengthOf(o) <= out.size
      requires IsPow2(out.size) && lo == Slot(out.size, out.pcur)
      requires lo + LengthOf(o) <= out.size && out.pcur + LengthOf(o) <= out.gate + out.size
      modifies this, outtmp, out, out.buf
      ensures Valid() && out.ccur == old(out.ccur) && out.done == old(out.done) && out.tmp == old(out.tmp)
      ensures outtmp == old(outtmp)
      ensures r == if EncodingOf(o).Ok? then Delivered(LengthOf(o)) else NotEncoded
      ensures out.Unread() == old(out.Unread()) + (if EncodingOf(o).Ok? then EncodingOf(o).value else [])
      ensures Reaches(old(out.Snapshot()), out.Snapshot())
    {
      hide InvUnread, InvProducer, InvConsumer, Reaches, Slot, SlotBytes, IsPow2, EncodingOf, LengthOf;
      ghost var s, u := out.Snapshot(), out.Unread();
      var l := LengthOf(o);
      var e := EncodeInto(out.buf, lo, lo + l, o);
      ghost var t := out.Snapshot();
      Buffer.OverwriteIsRun(s, t, lo, l, l);
      if e.Err? {
        return NotEncoded;
      }
      EncodingLength(o);
      assert out.buf[lo..lo + l] == EncodingOf(o).value;
      var n, _ := out.WriteCommit(l);
      ReachesTransitive(s, t, out.Snapshot());
      return Delivered(n);
    }

    /** Whether the message is encoded in place or through outtmp, the stream grows by exactly its
        encoding; when it cannot be encoded, it does not grow at all. */
    method WriteMessage(o: Outgoing) returns (r: Outcome)
      requires Valid() && Ready(o)
      modifies this, outtmp, out, out.buf
      ensures Valid() && out.ccur == old(out.ccur) && out.done == old(out.done) && out.tmp == old(out.tmp)
      ensures outtmp == old(outtmp) || fresh(outtmp)
      ensures r == if old(out.done) then OutputClosed
                   else if |old(out.Unread())| + LengthOf(o) > out.size then OutputFull
                   else if EncodingOf(o).Ok? then Delivered(LengthOf(o)) else NotEncoded
      ensures out.Unread() == old(out.Unread()) + (if r.Delivered? then EncodingOf(o).value else [])
      ensures Reaches(old(out.Snapshot()), out.Snapshot())
    {
      hide Reaches, InvUnread, InvProducer, InvConsumer, Slot, EncodingOf, LengthOf;
      ghost var s, u := out.Snapshot(), out.Unread();
      var v := out.WriteWait(LengthOf(o));
      assert out.Unread() == u;
      if v.WriteFailed? {
        return if v.closed then OutputClosed else OutputFull;
      }
      ghost var t := out.Snapshot();
      if v.wrap {
        r := SendCopy(o);
      } else {
        r := SendInPlace(v.lo, o);
      }
      ReachesTransitive(s, t, out.Snapshot());
    }
  }
}
