/**
 Cutting the byte stream into packets: the peek-size / peek / handle / commit loop of the
 processor over the byte ring, and the same header scan over a buffered reader.
 */
module Framing {
  import opened Bytes
  import opened RingBuffer
  import opened RingProtocol
  import opened RingRuns
  import opened Wire

  /** What the scan of a header says about the bytes seen so far. */
  datatype Peek =
    | NeedMore
    | BadHeader
    | Size(mtype: nat, total: nat)

  /** What handling a packet leads to; decoding and processing are the caller's. */
  datatype Verdict = Proceed | Undecodable | Disconnect

  datatype Stop = Starved | Malformed | TooBig | DecodeFailed | Disconnected

  /** The handled packets, the bytes left uncommitted, and why the loop stopped. */
  datatype Cut = Cut(packets: seq<seq<byte>>, rest: seq<byte>, stop: Stop)

  /** The header scan with cnt bytes asked for. */
  function PeekFrom(s: seq<byte>, cnt: nat): Peek
    requires cnt >= 2
    decreases 6 - cnt
  {
    if cnt > 5 then BadHeader
    else if |s| < cnt then NeedMore
    else if s[cnt - 1] >= 128 then PeekFrom(s, cnt + 1)
    else Size(s[0] / 16, VarintValue(s[1..cnt]) + cnt)
  }

  function PeekSize(s: seq<byte>): Peek {
    PeekFrom(s, 2)
  }

  /** An accepted header: one type byte, at most four length bytes, and a total that is the
      header plus the remaining length they encode. */
  lemma {:induction false} PeekFromSound(s: seq<byte>, cnt: nat)
    requires cnt >= 2 && PeekFrom(s, cnt).Size?
    requires cnt <= 6 && forall i | 1 <= i < cnt - 1 && i < |s| :: s[i] >= 128
    ensures |s| >= 2
    ensures var (remlen, m) := Uvarint(s[1..]);
            && 1 <= m <= 4 && remlen <= MAX_REMAINING_LENGTH
            && PeekFrom(s, cnt).total == 1 + m + remlen
    decreases 6 - cnt
  {
    if s[cnt - 1] >= 128 {
      PeekFromSound(s, cnt + 1);
    } else {
      var t := s[1..];
      var k := VarintLen(t);
      assert t[cnt - 2] == s[cnt - 1];
      assert forall i | 0 <= i < cnt - 2 :: t[i] == s[i + 1];
      assert k == cnt - 1;
      assert t[..k] == s[1..cnt];
      FourBytesBound(s[1..cnt]);
    }
  }

  lemma PeekSizeSound(s: seq<byte>)
    requires PeekSize(s).Size?
    ensures |s| >= 2
    ensures var (remlen, m) := Uvarint(s[1..]);
            && 1 <= m <= 4 && remlen <= MAX_REMAINING_LENGTH
            && PeekSize(s).total == 1 + m + remlen
  {
    PeekFromSound(s, 2);
  }

  /** A decided header scan does not change when more bytes arrive. */
  lemma {:induction false} PeekFromStable(s: seq<byte>, t: seq<byte>, cnt: nat)
    requires cnt >= 2 && !PeekFrom(s, cnt).NeedMore?
    ensures PeekFrom(s + t, cnt) == PeekFrom(s, cnt)
    decreases 6 - cnt
  {
    if cnt <= 5 {
      if s[cnt - 1] >= 128 {
        PeekFromStable(s, t, cnt + 1);
      } else {
        assert (s + t)[1..cnt] == s[1..cnt];
      }
    }
  }

  /** What the processor loop does with a stream: limit is the ring size. */
  function Process(s: seq<byte>, limit: nat, verdict: seq<byte> -> Verdict): Cut
    decreases |s|
  {
    match PeekSize(s)
    case NeedMore => Cut([], s, Starved)
    case BadHeader => Cut([], s, Malformed)
    case Size(_, total) =>
      if total > limit then Cut([], s, TooBig)
      else if |s| < total then Cut([], s, Starved)
      else
        var p := s[..total];
        match verdict(p)
        case Undecodable => Cut([], s, DecodeFailed)
        case Disconnect => Cut([p], s, Disconnected)
        case Proceed =>
          PeekSizeSound(s);
          var c := Process(s[total..], limit, verdict);
          c.(packets := [p] + c.packets)
  }

  /** p is one whole packet. */
  predicate IsPacket(p: seq<byte>) {
    PeekSize(p).Size? && PeekSize(p).total == |p|
  }

  function Concat(ps: seq<seq<byte>>): seq<byte> {
    if ps == [] then [] else ps[0] + Concat(ps[1..])
  }

  lemma ProcessFirst(p: seq<byte>, s: seq<byte>, limit: nat, verdict: seq<byte> -> Verdict)
    requires IsPacket(p) && |p| <= limit && verdict(p) == Proceed
    ensures var c := Process(s, limit, verdict);
            Process(p + s, limit, verdict) == c.(packets := [p] + c.packets)
  {
    PeekFromStable(p, s, 2);
    assert (p + s)[..|p|] == p && (p + s)[|p|..] == s;
  }

  /** The loop recovers exactly the packets that were concatenated, however the tail goes on. */
  lemma {:induction false} ProcessRecoversPackets(ps: seq<seq<byte>>, tail: seq<byte>, limit: nat,
                                                  verdict: seq<byte> -> Verdict)
    requires forall p | p in ps :: IsPacket(p) && |p| <= limit && verdict(p) == Proceed
    ensures var c := Process(tail, limit, verdict);
            Process(Concat(ps) + tail, limit, verdict) == c.(packets := ps + c.packets)
    decreases |ps|
  {
    hide Process, IsPacket;
    if ps == [] {
      assert Concat(ps) + tail == tail;
    } else {
      assert Concat(ps) + tail == ps[0] + (Concat(ps[1..]) + tail);
      ProcessRecoversPackets(ps[1..], tail, limit, verdict);
      ProcessFirst(ps[0], Concat(ps[1..]) + tail, limit, verdict);
      var c := Process(tail, limit, verdict);
      assert [ps[0]] + (ps[1..] + c.packets) == ps + c.packets;
    }
  }

  /** Handled packets depend on the bytes, not on how they arrive: stopping for lack of bytes and
      going on when more have come equals one pass over everything. */
  lemma {:induction false} ProcessInChunks(s: seq<byte>, t: seq<byte>, limit: nat, verdict: seq<byte> -> Verdict)
    ensures var c := Process(s, limit, verdict);
            c.stop.Starved? ==>
              var d := Process(c.rest + t, limit, verdict);
              Process(s + t, limit, verdict) == d.(packets := c.packets + d.packets)
    ensures var c := Process(s, limit, verdict);
            !c.stop.Starved? ==> Process(s + t, limit, verdict) == c.(rest := c.rest + t)
    decreases |s|
  {
    var k := PeekSize(s);
    if k.NeedMore? {
    } else {
      PeekFromStable(s, t, 2);
      if k.Size? && k.total <= limit && k.total <= |s| {
        var p := s[..k.total];
        assert (s + t)[..k.total] == p;
        if verdict(p).Proceed? {
          PeekSizeSound(s);
          assert (s + t)[k.total..] == s[k.total..] + t;
          ProcessInChunks(s[k.total..], t, limit, verdict);
          ChunkStep(p, s[k.total..], t, limit, verdict);
        }
      }
    }
  }

  lemma ChunkStep(p: seq<byte>, s: seq<byte>, t: seq<byte>, limit: nat, verdict: seq<byte> -> Verdict)
    ensures var c := Process(s, limit, verdict);
            var d := Process(c.rest + t, limit, verdict);
            [p] + (c.packets + d.packets) == ([p] + c.packets) + d.packets
  {
  }

  // ------------------------------------------------------------------
  // The loop over the ring
  // ------------------------------------------------------------------

  lemma PeekStep(s: seq<byte>, cnt: nat)
    requires cnt >= 2
    ensures cnt > 5 ==> PeekFrom(s, cnt) == BadHeader
    ensures cnt <= 5 && |s| < cnt ==> PeekFrom(s, cnt) == NeedMore
    ensures cnt <= 5 && |s| >= cnt && s[cnt - 1] >= 128 ==> PeekFrom(s, cnt) == PeekFrom(s, cnt + 1)
    ensures cnt <= 5 && |s| >= cnt && s[cnt - 1] < 128 ==>
              PeekFrom(s, cnt) == Size(s[0] / 16, VarintValue(s[1..cnt]) + cnt)
  {
  }

  method PeekBytes(ring: Buffer, cnt: nat) returns (ok: bool, b: seq<byte>)
    requires ring.Valid() && cnt <= ring.size
    modifies ring`tmp
    ensures ring.Valid() && ring.Snapshot() == old(ring.Snapshot()) && ring.Unread() == old(ring.Unread())
    ensures ok <==> cnt <= |ring.Unread()|
    ensures ok ==> b == ring.Unread()[..cnt]
  {
    hide Inv;
    var r := ring.ReadWait(cnt);
    if r.ViewFailed? {
      return false, [];
    }
    b := ring.Contents(r.view);
    return true, b;
  }

  /** The scan of peekMessageSize: ask for two bytes, then one more while the last continues. */
  method PeekMessageSize(ring: Buffer) returns (k: Peek)
    requires ring.Valid() && ring.size >= 5
    modifies ring`tmp
    ensures ring.Valid() && ring.Snapshot() == old(ring.Snapshot())
    ensures k == PeekSize(ring.Unread())
  {
    hide Inv, PeekFrom, VarintValue;
    var cnt := 2;
    ghost var s := ring.Unread();
    while true
      invariant 2 <= cnt <= 6
      invariant ring.Valid() && ring.Snapshot() == old(ring.Snapshot()) && ring.Unread() == s
      invariant cnt <= |s| + 1 || cnt == 2
      invariant forall i: nat | 1 <= i < cnt - 1 :: s[i] >= 128
      invariant PeekSize(s) == PeekFrom(s, cnt)
      decreases 6 - cnt
    {
      PeekStep(s, cnt);
      if cnt > 5 {
        return BadHeader;
      }
      var ok, b := PeekBytes(ring, cnt);
      if !ok {
        return NeedMore;
      }
      if b[cnt - 1] >= 0x80 {
        cnt := cnt + 1;
      } else {
        var lenbytes := b[1..];
        assert lenbytes == s[1..cnt];
        assert forall i: nat | i < |lenbytes| - 1 :: lenbytes[i] == s[i + 1] >= 128;
        var total := HeaderTotal(lenbytes);
        return Size(b[0] / 16, total);
      }
    }
  }

  /** `int(remlen) + 1 + m` for the length bytes of a complete header. */
  method HeaderTotal(lenbytes: seq<byte>) returns (total: nat)
    requires 1 <= |lenbytes| <= 4 && lenbytes[|lenbytes| - 1] < 128
    requires forall i | 0 <= i < |lenbytes| - 1 :: lenbytes[i] >= 128
    ensures total == VarintValue(lenbytes) + |lenbytes| + 1
  {
    var (remlen, m) := Uvarint(lenbytes);
    assert VarintLen(lenbytes) == |lenbytes|;
    assert lenbytes[..|lenbytes|] == lenbytes;
    total := remlen + 1 + m;
  }

  datatype Round = Next(packet: seq<byte>) | Halt(handled: seq<seq<byte>>, stop: Stop)

  /** One round of the processor: size, message, handling, commit. */
  method ProcessOne(ring: Buffer, verdict: seq<byte> -> Verdict) returns (r: Round)
    requires ring.Valid() && ring.size >= 5
    modifies ring`tmp, ring`ccur
    ensures ring.Valid() && ring.done == old(ring.done) && ring.written == old(ring.written)
    ensures r.Next? ==>
              var c := Process(ring.Unread(), ring.size, verdict);
              && Process(old(ring.Unread()), ring.size, verdict) == c.(packets := [r.packet] + c.packets)
              && |ring.Unread()| < |old(ring.Unread())|
    ensures r.Halt? ==> Process(old(ring.Unread()), ring.size, verdict) == Cut(r.handled, ring.Unread(), r.stop)
    ensures Reaches(old(ring.Snapshot()), ring.Snapshot())
  {
    hide Inv, PeekFrom, Reaches;
    ghost var s := ring.Unread();
    ReachesSelf(ring.Snapshot());
    var k := PeekMessageSize(ring);
    if k.NeedMore? {
      return Halt([], Starved);
    }
    if k.BadHeader? {
      return Halt([], Malformed);
    }
    PeekSizeSound(s);
    var v := ring.ReadWait(k.total);
    if v.ViewFailed? {
      return Halt([], if v.error.BufferFull? then TooBig else Starved);
    }
    var b := ring.Contents(v.view);
    match verdict(b) {
      case Undecodable => return Halt([], DecodeFailed);
      case Disconnect => return Halt([b], Disconnected);
      case Proceed =>
        var _, _ := ring.ReadCommit(k.total);
        return Next(b);
    }
  }

  /** With `packets` handled, c is what is still to come of c0. */
  ghost predicate ToCome(c0: Cut, packets: seq<seq<byte>>, c: Cut) {
    c0 == c.(packets := packets + c.packets)
  }

  lemma ToComeNext(c0: Cut, packets: seq<seq<byte>>, c: Cut, p: seq<byte>)
    requires ToCome(c0, packets, c.(packets := [p] + c.packets))
    ensures ToCome(c0, packets + [p], c)
  {
    assert packets + ([p] + c.packets) == (packets + [p]) + c.packets;
  }

  lemma AllHandled(c0: Cut, packets: seq<seq<byte>>, c: Cut)
    requires ToCome(c0, packets, c)
    ensures c0 == c.(packets := packets + c.packets)
  {
  }

  lemma NothingHandled(c: Cut)
    ensures ToCome(c, [], c)
  {
    assert [] + c.packets == c.packets;
  }

  /** The processor loop handles exactly the packets the stream holds, in order, and leaves the
      rest of the stream in the ring. */
  method Processor(ring: Buffer, verdict: seq<byte> -> Verdict) returns (packets: seq<seq<byte>>, stop: Stop)
    requires ring.Valid() && ring.size >= 5
    modifies ring`tmp, ring`ccur
    ensures ring.Valid() && ring.done == old(ring.done) && ring.written == old(ring.written)
    ensures Process(old(ring.Unread()), ring.size, verdict) == Cut(packets, ring.Unread(), stop)
    ensures Reaches(old(ring.Snapshot()), ring.Snapshot())
  {
    hide Inv, Process, Reaches, ToCome;
    packets := [];
    ghost var s, c0 := ring.Snapshot(), Process(ring.Unread(), ring.size, verdict);
    ReachesSelf(s);
    NothingHandled(c0);
    while true
      invariant ring.Valid() && ring.done == old(ring.done) && ring.written == old(ring.written)
      invariant ToCome(c0, packets, Process(ring.Unread(), ring.size, verdict))
      invariant Reaches(s, ring.Snapshot())
      decreases |ring.Unread()|
    {
      ghost var t := ring.Snapshot();
      var r := ProcessOne(ring, verdict);
      ReachesTransitive(s, t, ring.Snapshot());
      match r {
        case Next(p) =>
          ToComeNext(c0, packets, Process(ring.Unread(), ring.size, verdict), p);
          packets := packets + [p];
        case Halt(handled, why) =>
          AllHandled(c0, packets, Cut(handled, ring.Unread(), why));
          return packets + handled, why;
      }
    }
  }

  /** The same scan over the bytes a buffered reader can peek at. */
  method GetPeekMessageSize(reader: seq<byte>) returns (k: Peek)
    ensures k == PeekSize(reader)
  {
    hide PeekFrom, VarintValue;
    var cnt := 2;
    while true
      invariant 2 <= cnt <= 6 && (cnt <= |reader| + 1 || cnt == 2)
      invariant forall i: nat | 1 <= i < cnt - 1 :: reader[i] >= 128
      invariant PeekSize(reader) == PeekFrom(reader, cnt)
      decreases 6 - cnt
    {
      PeekStep(reader, cnt);
      if cnt > 5 {
        return BadHeader;
      }
      if |reader| < cnt {
        return NeedMore;
      }
      var b := reader[..cnt];
      if b[cnt - 1] >= 0x80 {
        cnt := cnt + 1;
      } else {
        var lenbytes := b[1..];
        assert lenbytes == reader[1..cnt];
        assert forall i: nat | i < |lenbytes| - 1 :: lenbytes[i] == reader[i + 1] >= 128;
        var total := HeaderTotal(lenbytes);
        return Size(b[0] / 16, total);
      }
    }
  }
}
