/**
 Two connected peers: messages go through writeMessage into the output ring of one, from there over
 the connection into the input ring of the other, and through the processor loop there.
 */
module Exchange {
  import opened Bytes
  import opened Delivery
  import opened Framing
  import opened RingBuffer
  import opened RingProtocol
  import opened Sending

  /** All the messages can be encoded. */
  ghost predicate AllEncode(os: seq<Outgoing>) {
    forall o | o in os :: Ready(o) && EncodingOf(o).Ok?
  }

  /** What the messages are on the wire. */
  ghost function Packets(os: seq<Outgoing>): (ps: seq<seq<byte>>)
    requires AllEncode(os)
    ensures |ps| == |os|
  {
    seq(|os|, i requires 0 <= i < |os| => EncodingOf(os[i]).value)
  }

  lemma {:induction false} ConcatJoins(ps: seq<seq<byte>>, qs: seq<seq<byte>>)
    ensures Concat(ps + qs) == Concat(ps) + Concat(qs)
    decreases |ps|
  {
    if ps == [] {
      assert ps + qs == qs;
    } else {
      ConcatJoins(ps[1..], qs);
      assert (ps + qs)[1..] == ps[1..] + qs;
    }
  }

  /** A part of the messages takes no more room than all of them. */
  lemma PartIsShorter(os: seq<Outgoing>, n: nat)
    requires n <= |os| && AllEncode(os)
    ensures AllEncode(os[..n])
    ensures |Concat(Packets(os[..n]))| <= |Concat(Packets(os))|
  {
    hide Concat, EncodingOf;
    assert Packets(os) == Packets(os[..n]) + Packets(os)[n..];
    ConcatJoins(Packets(os[..n]), Packets(os)[n..]);
  }

  lemma PacketsAppend(os: seq<Outgoing>, n: nat)
    requires n < |os| && AllEncode(os[..n + 1])
    ensures AllEncode(os[..n]) && Ready(os[n]) && EncodingOf(os[n]).Ok?
    ensures Concat(Packets(os[..n + 1])) == Concat(Packets(os[..n])) + EncodingOf(os[n]).value
  {
    hide Concat, EncodingOf;
    assert os[..n + 1] == os[..n] + [os[n]];
    assert Packets(os[..n + 1]) == Packets(os[..n]) + [EncodingOf(os[n]).value];
    ConcatJoins(Packets(os[..n]), [EncodingOf(os[n]).value]);
    ConcatOne(EncodingOf(os[n]).value);
  }

  lemma ConcatOne(p: seq<byte>)
    ensures Concat([p]) == p
  {
    assert [p][1..] == [];
  }

  /** The messages can be encoded and fit the room that is left in a ring. */
  ghost predicate Fit(os: seq<Outgoing>, room: int) {
    AllEncode(os) && |Concat(Packets(os))| <= room
  }

  /** The next message has room where all have. */
  lemma NextFits(os: seq<Outgoing>, n: nat, room: int)
    requires n < |os| && Fit(os, room)
    ensures AllEncode(os[..n])
    ensures |Concat(Packets(os[..n]))| + LengthOf(os[n]) <= room
  {
    hide Concat, EncodingOf, LengthOf, Packets;
    assert forall o | o in os[..n + 1] :: o in os;
    PacketsAppend(os, n);
    PartIsShorter(os, n + 1);
    EncodingLength(os[n]);
  }

  /** Sends the messages one after the other, as long as there is room. */
  method SendAll(s: Sender, os: seq<Outgoing>) returns (all: bool)
    requires s.Valid() && forall o | o in os :: Ready(o)
    modifies s, s.outtmp, s.out, s.out.buf
    ensures s.Valid() && (s.outtmp == old(s.outtmp) || fresh(s.outtmp)) && s.out.done == old(s.out.done)
    ensures all ==> AllEncode(os)
    ensures all ==> s.out.Unread() == old(s.out.Unread()) + Concat(Packets(os))
    ensures !s.out.done && Fit(os, s.out.size - |old(s.out.Unread())|) ==> all
  {
    hide Concat, EncodingOf, LengthOf, Packets, Inv, Reaches, Ready, Fit;
    NoPackets();
    ghost var room := s.out.size - |s.out.Unread()|;
    for i := 0 to |os|
      invariant s.Valid() && (s.outtmp == old(s.outtmp) || fresh(s.outtmp)) && s.out.done == old(s.out.done)
      invariant AllEncode(os[..i])
      invariant s.out.Unread() == old(s.out.Unread()) + Concat(Packets(os[..i]))
    {
      if Fit(os, room) {
        FitEncodes(os, room, i);
        NextFits(os, i, room);
      }
      var r := s.WriteMessage(os[i]);
      if !r.Delivered? {
        return false;
      }
      assert os[..i + 1] == os[..i] + [os[i]];
      PacketsAppend(os, i);
    }
    assert os[..|os|] == os;
    all := true;
  }

  lemma FitEncodes(os: seq<Outgoing>, room: int, i: nat)
    requires i < |os| && Fit(os, room)
    ensures Ready(os[i]) && EncodingOf(os[i]).Ok?
  {
  }

  lemma NoPackets()
    ensures Concat(Packets([])) == []
  {
  }

  /** The connection: what one ring passes on, the other takes in. */
  method Transfer(out: Buffer, input: Buffer, fuse: nat, short: nat) returns (carried: bool)
    requires out.Valid() && input.Valid() && input != out && input.buf != out.buf && !input.done
    modifies out, input, input.buf
    ensures out.Valid() && input.Valid() && input.done == old(input.done)
    ensures carried ==> input.Unread() == old(input.Unread()) + old(out.Unread())
    ensures carried ==> out.Unread() == [] && !out.done
    ensures (&& !old(out.done) && out.size >= DEFAULT_WRITE_BLOCK_SIZE && fuse >= |old(out.Unread())|
             && |old(input.Unread())| + |old(out.Unread())| + DEFAULT_READ_BLOCK_SIZE <= input.size) ==> carried
  {
    hide Input, Inv, Reaches;
    var wire, waits := out.WriteTo(fuse, short);
    var n, suspended := input.Feed(Input(wire));
    carried := waits && !suspended;
    assert carried ==> Input(wire)[..n] == Input(wire);
  }

  /** Messages whose round trip holds, and packets as they were received. */
  predicate Deliverable(o: Outgoing) {
    match o
    case Changed(m, nextId) => Sendable(m, nextId)
    case Unchanged(packet) => IsPacket(packet)
  }

  /** What the receiver makes of a packet: the message that was sent, or the packet as it was. */
  predicate Yields(p: seq<byte>, o: Outgoing) {
    match o
    case Changed(m, nextId) => Gives(p, Sent(m, nextId))
    case Unchanged(packet) => p == packet
  }

  /** Packet i yields message i, for all of them. */
  ghost predicate AllYield(packets: seq<seq<byte>>, os: seq<Outgoing>) {
    |packets| == |os| && forall i | 0 <= i < |os| :: Yields(packets[i], os[i])
  }

  lemma DeliverableIsPacket(o: Outgoing)
    requires Deliverable(o)
    ensures Ready(o) && EncodingOf(o).Ok? && IsPacket(EncodingOf(o).value) && Yields(EncodingOf(o).value, o)
  {
    hide IsPacket, Gives, Sent, Encoding;
    if o.Changed? { MessageIsPacket(o.m, o.nextId); }
  }

  /** Messages that the receiver's ring can hold and its handler accepts. */
  ghost predicate AllAccepted(os: seq<Outgoing>, limit: nat, verdict: seq<byte> -> Verdict) {
    && AllEncode(os)
    && forall o | o in os ::
         Deliverable(o) && |EncodingOf(o).value| <= limit && verdict(EncodingOf(o).value) == Proceed
  }

  lemma AllCutOut(os: seq<Outgoing>, limit: nat, verdict: seq<byte> -> Verdict)
    requires AllAccepted(os, limit, verdict)
    ensures Process(Concat(Packets(os)), limit, verdict) == Cut(Packets(os), [], Starved)
    ensures AllYield(Packets(os), os)
  {
    hide Process, IsPacket, EncodingOf, Deliverable, Yields;
    var ps := Packets(os);
    forall i | 0 <= i < |os|
      ensures IsPacket(ps[i]) && Yields(ps[i], os[i]) && |ps[i]| <= limit && verdict(ps[i]) == Proceed
    {
      DeliverableIsPacket(os[i]);
    }
    ProcessRecoversPackets(ps, [], limit, verdict);
    NothingToProcess(limit, verdict);
    assert Concat(ps) + [] == Concat(ps) && ps + [] == ps;
  }

  lemma NothingToProcess(limit: nat, verdict: seq<byte> -> Verdict)
    ensures Process([], limit, verdict) == Cut([], [], Starved)
  {
  }

  /** Both rings have room for all the messages, and the connection lasts. */
  ghost predicate Roomy(os: seq<Outgoing>, outSize: nat, inputSize: nat, fuse: nat) {
    && AllEncode(os)
    && var n := |Concat(Packets(os))|;
    n <= outSize && n <= fuse && n + DEFAULT_READ_BLOCK_SIZE <= inputSize
  }

  /** The two peers, ready for a round: separate, and with nothing under way. */
  ghost predicate AtRest(s: Sender, input: Buffer)
    reads s, s.out, s.out.buf, input, input.buf
  {
    && s.Valid() && input.Valid() && input.size >= 5 && !input.done
    && input != s.out && input.buf != s.out.buf && input.buf != s.outtmp
    && s.out.Unread() == [] && input.Unread() == []
  }

  /** Sends and carries: everything is under way in the receiving ring, or the round has failed. */
  method SendAndCarry(s: Sender, input: Buffer, os: seq<Outgoing>, fuse: nat, short: nat) returns (complete: bool)
    requires AtRest(s, input) && AllEncode(os)
    modifies s, s.outtmp, s.out, s.out.buf, input, input.buf
    ensures s.Valid() && input.Valid() && (s.outtmp == old(s.outtmp) || fresh(s.outtmp))
    ensures complete ==> s.out.Unread() == [] && !s.out.done && !input.done && input.Unread() == Concat(Packets(os))
    ensures (&& !old(s.out.done) && s.out.size >= DEFAULT_WRITE_BLOCK_SIZE
             && Roomy(os, s.out.size, input.size, fuse)) ==> complete
  {
    hide Concat, EncodingOf, Packets, Inv;
    var all := SendAll(s, os);
    assert input.Unread() == [];
    var carried := Transfer(s.out, input, fuse, short);
    complete := all && carried;
  }

  /** Messages sent through one ring and carried to the other come out of the processor loop as the
      same packets, in order, each yielding its message; and they are carried whenever both rings
      have room and the connection lasts. */
  method Deliver(s: Sender, input: Buffer, os: seq<Outgoing>, fuse: nat, short: nat, verdict: seq<byte> -> Verdict)
      returns (complete: bool, packets: seq<seq<byte>>, stop: Stop)
    requires AtRest(s, input) && AllAccepted(os, input.size, verdict)
    modifies s, s.outtmp, s.out, s.out.buf, input, input.buf
    ensures s.outtmp == old(s.outtmp) || fresh(s.outtmp)
    ensures complete ==> AtRest(s, input) && !s.out.done && stop == Starved
    ensures complete ==> packets == Packets(os) && AllYield(packets, os)
    ensures (&& !old(s.out.done) && s.out.size >= DEFAULT_WRITE_BLOCK_SIZE
             && Roomy(os, s.out.size, input.size, fuse)) ==> complete
  {
    hide Concat, EncodingOf, Packets, Process, Inv, Reaches, Deliverable, Yields, Ready, Roomy;
    AllCutOut(os, input.size, verdict);
    complete := SendAndCarry(s, input, os, fuse, short);
    packets, stop := Processor(input, verdict);
  }

  /** All the messages of the rounds, in order. */
  function Joined(rounds: seq<seq<Outgoing>>): seq<Outgoing> {
    if rounds == [] then [] else Joined(rounds[..|rounds| - 1]) + rounds[|rounds| - 1]
  }

  lemma JoinedStep(rounds: seq<seq<Outgoing>>, i: nat)
    requires i < |rounds|
    ensures Joined(rounds[..i + 1]) == Joined(rounds[..i]) + rounds[i]
  {
    assert rounds[..i + 1][..i] == rounds[..i];
  }

  lemma MoreYield(packets: seq<seq<byte>>, os: seq<Outgoing>, more: seq<seq<byte>>, os': seq<Outgoing>)
    requires AllYield(packets, os) && AllYield(more, os')
    ensures AllYield(packets + more, os + os')
  {
    hide Yields;
  }

  /** Any number of messages, carried in rounds: in each round some are sent, carried and processed.
      They come out in order, each yielding its message; and all rounds succeed when each has room. */
  method DeliverInRounds(s: Sender, input: Buffer, rounds: seq<seq<Outgoing>>, fuse: nat, short: nat,
                         verdict: seq<byte> -> Verdict)
      returns (complete: bool, packets: seq<seq<byte>>)
    requires AtRest(s, input)
    requires forall os | os in rounds :: AllAccepted(os, input.size, verdict)
    modifies s, s.outtmp, s.out, s.out.buf, input, input.buf
    ensures complete ==> AtRest(s, input) && AllYield(packets, Joined(rounds))
    ensures (&& !old(s.out.done) && s.out.size >= DEFAULT_WRITE_BLOCK_SIZE
             && forall os | os in rounds :: Roomy(os, s.out.size, input.size, fuse)) ==> complete
  {
    hide AtRest, AllAccepted, AllEncode, Roomy, Joined, AllYield, Packets, Inv;
    packets := [];
    NothingYields();
    for i := 0 to |rounds|
      invariant AtRest(s, input) && (s.outtmp == old(s.outtmp) || fresh(s.outtmp)) && (s.out.done ==> old(s.out.done))
      invariant AllYield(packets, Joined(rounds[..i]))
    {
      RoundReady(rounds, i, input.size, verdict);
      var ok, more, _ := Deliver(s, input, rounds[i], fuse, short, verdict);
      if !ok {
        return false, packets;
      }
      MoreYield(packets, Joined(rounds[..i]), more, rounds[i]);
      JoinedStep(rounds, i);
      packets := packets + more;
    }
    assert rounds[..|rounds|] == rounds;
    complete := true;
  }

  lemma NothingYields()
    ensures AllYield([], Joined([]))
  {
  }

  lemma RoundReady(rounds: seq<seq<Outgoing>>, i: nat, limit: nat, verdict: seq<byte> -> Verdict)
    requires i < |rounds| && forall os | os in rounds :: AllAccepted(os, limit, verdict)
    ensures rounds[i] in rounds && AllAccepted(rounds[i], limit, verdict) && AllEncode(rounds[i])
  {
  }
}
