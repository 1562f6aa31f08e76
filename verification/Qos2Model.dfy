/**
 The receiving side of QoS 2: PUBLISH packets go into the Pub2in ack queue and are answered
 with PUBREC; PUBREL releases the finished front of the queue to onPublish and is answered
 with PUBCOMP.
 */
module Qos2Model {
  import opened AckModel
  import opened Bytes
  import opened MessageTypes
  import opened Prelude
  import opened PublishCodec
  import AckPackets
  import Wire

  /** "/sys", "/service", "/heartbeat" and "/update". */
  const SYS: seq<byte> := [0x2f, 0x73, 0x79, 0x73]
  const SERVICE: seq<byte> := [0x2f, 0x73, 0x65, 0x72, 0x76, 0x69, 0x63, 0x65]
  const HEARTBEAT: seq<byte> := [0x2f, 0x68, 0x65, 0x61, 0x72, 0x74, 0x62, 0x65, 0x61, 0x74]
  const UPDATE: seq<byte> := [0x2f, 0x75, 0x70, 0x64, 0x61, 0x74, 0x65]

  /** Publishes to this topic set the heartbeat and go no further. */
  const HEARTBEAT_TOPIC: seq<byte> := SYS + SERVICE + HEARTBEAT + UPDATE

  /** A packet the processor has decoded, with its bytes. */
  datatype Event = GotPublish(bytes: seq<byte>) | GotPubrel(bytes: seq<byte>)

  datatype Reply = Pubrec(id: uint16) | Puback(id: uint16) | Pubcomp(id: uint16)

  /** released: what processAcked handed to onPublish; direct: QoS 0 and 1 messages; heartbeats: the
      intervals sent to the keep-alive channel. */
  datatype Receiver = Receiver(
    queue: Queue,
    released: seq<Publish>,
    direct: seq<Publish>,
    replies: seq<Reply>,
    heartbeats: seq<int>)

  /** Only packets that decode reach the handlers. */
  predicate Legal(e: Event) {
    match e
    case GotPublish(b) => PublishCodec.Decode(b).Ok?
    case GotPubrel(b) => AckPackets.Decode(PUBREL, b).Ok?
  }

  function Msg(e: Event): Publish
    requires Legal(e) && e.GotPublish?
  {
    PublishCodec.Decode(e.bytes).value.0
  }

  function EventId(e: Event): uint16
    requires Legal(e)
  {
    match e
    case GotPublish(b) => Msg(e).pktid
    case GotPubrel(b) => AckPackets.Decode(PUBREL, b).value.0
  }

  /** A PUBLISH that goes through the queue. */
  predicate Queued(e: Event)
    requires Legal(e)
  {
    e.GotPublish? && Msg(e).topic != HEARTBEAT_TOPIC && Msg(e).qos == 2
  }

  /** A received message is not dirty, so its encoding is the packet it came in. */
  function InsertOf(e: Event): Op
    requires Legal(e) && e.GotPublish?
  {
    Insert(PUBLISH, EventId(e), e.bytes, true, 0)
  }

  function AckOf(e: Event): Op
    requires Legal(e) && e.GotPubrel?
  {
    Ack(PUBREL, EventId(e), e.bytes)
  }

  // ------------------------------------------------------------------
  // Heartbeat updates
  // ------------------------------------------------------------------

  const MAX_HEARTBEAT := 7200

  /** The value of a string of decimal digits. */
  function Digits(s: seq<byte>): Option<nat> {
    if s == [] then Some(0)
    else
      var d := s[|s| - 1];
      match Digits(s[..|s| - 1])
      case None => None
      case Some(v) => if 0x30 <= d <= 0x39 then Some(10 * v + (d - 0x30)) else None
  }

  /** strconv.Atoi: an optional sign, at least one digit, and a value that fits 64 bits. */
  function Atoi(s: seq<byte>): Option<int> {
    var signed := s != [] && (s[0] == 0x2b || s[0] == 0x2d);
    var digits := if signed then s[1..] else s;
    if digits == [] then None
    else
      match Digits(digits)
      case None => None
      case Some(v) =>
        var i: int := if signed && s[0] == 0x2d then 0 - v else v;
        if -0x8000_0000_0000_0000 <= i < 0x8000_0000_0000_0000 then Some(i) else None
  }

  function Clamp(v: int): (h: int)
    ensures 1 <= h <= MAX_HEARTBEAT
  {
    if v < 1 then 1 else if v > MAX_HEARTBEAT then MAX_HEARTBEAT else v
  }

  /** A publish to the heartbeat topic: the interval is taken over if the payload is a number, and
      only QoS 1 is answered. */
  function Heartbeat(r: Receiver, m: Publish): Receiver {
    match Atoi(m.payload)
    case None => r
    case Some(v) =>
      r.(heartbeats := r.heartbeats + [Clamp(v)],
         replies := if m.qos == 1 then r.replies + [Puback(m.pktid)] else r.replies)
  }

  // ------------------------------------------------------------------
  // One event
  // ------------------------------------------------------------------

  /** What processAcked publishes for the entries taken off the queue: those whose message and
      ack decode, and whose ack is a PUBREL. */
  function Publishes(done: seq<Entry>): seq<Publish> {
    if done == [] then []
    else
      var e := done[0];
      var m, a := PublishCodec.Decode(e.msgbuf), AckPackets.Decode(PUBREL, e.ackbuf);
      (if e.mtype == PUBLISH && e.state == PUBREL && m.Ok? && a.Ok? then [m.value.0] else []) + Publishes(done[1..])
  }

  lemma PublishesStep(done: seq<Entry>)
    requires done != []
    ensures var e := done[0];
            var m := PublishCodec.Decode(e.msgbuf);
            var taken := e.mtype == PUBLISH && m.Ok? && e.state == PUBREL && AckPackets.Decode(PUBREL, e.ackbuf).Ok?;
            Publishes(done) == (if taken then [m.value.0] else []) + Publishes(done[1..])
  {
  }

  function Next(r: Receiver, e: Event): Receiver
    requires Legal(e)
  {
    match e
    case GotPublish(b) =>
      var m := Msg(e);
      if m.topic == HEARTBEAT_TOPIC then Heartbeat(r, m)
      else if m.qos == 2 then
        r.(queue := Step(r.queue, InsertOf(e)), replies := r.replies + [Pubrec(m.pktid)])
      else if m.qos == 1 then
        r.(direct := r.direct + [m], replies := r.replies + [Puback(m.pktid)])
      else r.(direct := r.direct + [m])
    case GotPubrel(b) =>
      var q := Step(r.queue, AckOf(e));
      r.(queue := Step(q, Acked),
         released := r.released + Publishes(Removed(q, Acked)),
         replies := r.replies + [Pubcomp(EventId(e))])
  }

  // ------------------------------------------------------------------
  // Runs
  // ------------------------------------------------------------------

  ghost predicate AllLegal(es: seq<Event>) {
    forall e | e in es :: Legal(e)
  }

  function Start(): Receiver {
    Receiver(EmptyQueue(), [], [], [], [])
  }

  /** The receiver after the events, and the positions of the accepted PUBLISH packets. */
  datatype Trace = Trace(r: Receiver, accepted: seq<nat>)

  function Run(es: seq<Event>): Trace
    requires AllLegal(es)
  {
    if es == [] then Trace(Start(), [])
    else
      var n := |es| - 1;
      AllLegalPrefix(es);
      Extend(es[..n], Run(es[..n]), es[n])
  }

  lemma AllLegalPrefix(es: seq<Event>)
    requires AllLegal(es) && es != []
    ensures AllLegal(es[..|es| - 1]) && Legal(es[|es| - 1])
  {
    assert es[|es| - 1] in es;
    assert forall e | e in es[..|es| - 1] :: e in es;
  }

  predicate IsPubrel(e: Event, id: uint16) {
    Legal(e) && e.GotPubrel? && EventId(e) == id
  }

  predicate IsQueued(e: Event) {
    Legal(e) && Queued(e)
  }

  /** Position p holds a PUBLISH that goes through the queue. */
  predicate QueuedAt(es: seq<Event>, p: nat) {
    p < |es| && IsQueued(es[p])
  }

  function MsgAt(es: seq<Event>, p: nat): Publish
    requires QueuedAt(es, p)
  {
    Msg(es[p])
  }

  function IdAt(es: seq<Event>, p: nat): uint16
    requires QueuedAt(es, p)
  {
    EventId(es[p])
  }

  /** A PUBREL for the id arrived after position p. */
  ghost predicate ReleasedAfter(es: seq<Event>, p: nat, id: uint16) {
    exists j: nat :: p < j < |es| && IsPubrel(es[j], id)
  }

  /** The queue entry x stands for the PUBLISH at position p, and knows whether it was released. */
  ghost predicate EntryOf(es: seq<Event>, p: nat, x: Entry) {
    && QueuedAt(es, p)
    && x.mtype == PUBLISH && x.pktid == IdAt(es, p) && x.msgbuf == es[p].bytes
    && (x.state == RESERVED || x.state == PUBREL)
    && (x.state == PUBREL <==> ReleasedAfter(es, p, x.pktid))
    && (x.state == PUBREL ==> AckPackets.Decode(PUBREL, x.ackbuf).Ok?)
  }

  /** The accepted packets are the k released ones followed by the queued ones. */
  ghost predicate Tracks(es: seq<Event>, accepted: seq<nat>, live: seq<Entry>, k: nat) {
    && |accepted| == k + |live|
    && (forall x: nat | x < |live| :: EntryOf(es, accepted[k + x], live[x]))
    && (forall i: nat | i < k :: QueuedAt(es, accepted[i]) && ReleasedAfter(es, accepted[i], IdAt(es, accepted[i])))
  }

  /** The first k accepted messages, in order. */
  ghost function FirstMessages(es: seq<Event>, accepted: seq<nat>, k: nat): (ms: seq<Publish>)
    requires k <= |accepted| && forall i: nat | i < k :: QueuedAt(es, accepted[i])
    ensures |ms| == k
  {
    if k == 0 then [] else FirstMessages(es, accepted, k - 1) + [MsgAt(es, accepted[k - 1])]
  }

  lemma {:induction false} FirstMessagesAt(es: seq<Event>, accepted: seq<nat>, k: nat, i: nat)
    requires k <= |accepted| && i < k && forall i: nat | i < k :: QueuedAt(es, accepted[i])
    ensures FirstMessages(es, accepted, k)[i] == MsgAt(es, accepted[i])
    decreases k
  {
    hide QueuedAt;
    if i < k - 1 { FirstMessagesAt(es, accepted, k - 1, i); }
  }

  lemma ReleasedStays(es: seq<Event>, e: Event, p: nat, id: uint16)
    requires p < |es|
    ensures ReleasedAfter(es + [e], p, id) <==> ReleasedAfter(es, p, id) || IsPubrel(e, id)
  {
    var es' := es + [e];
    if ReleasedAfter(es, p, id) {
      var j: nat :| p < j < |es| && IsPubrel(es[j], id);
      assert IsPubrel(es'[j], id);
    }
    if IsPubrel(e, id) { assert IsPubrel(es'[|es|], id); }
    if ReleasedAfter(es', p, id) {
      var j: nat :| p < j < |es'| && IsPubrel(es'[j], id);
      if j < |es| { assert IsPubrel(es[j], id); }
    }
  }

  lemma EntryStays(es: seq<Event>, e: Event, p: nat, x: Entry)
    requires EntryOf(es, p, x) && !IsPubrel(e, x.pktid)
    ensures EntryOf(es + [e], p, x)
  {
    hide Legal, EventId, ReleasedAfter;
    ReleasedStays(es, e, p, x.pktid);
  }

  lemma EntryMarked(es: seq<Event>, e: Event, p: nat, x: Entry)
    requires EntryOf(es, p, x) && Legal(e) && e.GotPubrel?
    ensures EntryOf(es + [e], p, MarkAcked(x, PUBREL, EventId(e), e.bytes))
  {
    hide ReleasedAfter;
    ReleasedStays(es, e, p, x.pktid);
    assert (es + [e])[p] == es[p];
  }

  lemma TracksStays(es: seq<Event>, e: Event, accepted: seq<nat>, live: seq<Entry>, k: nat)
    requires Tracks(es, accepted, live, k) && Legal(e) && e.GotPublish?
    ensures Tracks(es + [e], accepted, live, k)
  {
    hide EntryOf, ReleasedAfter;
    var es' := es + [e];
    forall x: nat | x < |live|
      ensures EntryOf(es', accepted[k + x], live[x])
    {
      EntryStays(es, e, accepted[k + x], live[x]);
    }
    forall i: nat | i < k
      ensures QueuedAt(es', accepted[i]) && ReleasedAfter(es', accepted[i], IdAt(es', accepted[i]))
    {
      ReleasedStays(es, e, accepted[i], IdAt(es, accepted[i]));
    }
  }

  lemma TracksAccepted(es: seq<Event>, e: Event, accepted: seq<nat>, live: seq<Entry>, k: nat)
    requires Tracks(es, accepted, live, k) && IsQueued(e)
    ensures Tracks(es + [e], accepted + [|es|], live + [NewEntry(InsertOf(e))], k)
  {
    TracksStays(es, e, accepted, live, k);
    var es', added := es + [e], NewEntry(InsertOf(e));
    assert EntryOf(es', |es|, added) by {
      assert es'[|es|] == e;
      assert !ReleasedAfter(es', |es|, added.pktid);
    }
    hide EntryOf, ReleasedAfter;
  }

  lemma TracksMarked(es: seq<Event>, e: Event, accepted: seq<nat>, live: seq<Entry>, k: nat)
    requires Tracks(es, accepted, live, k) && Legal(e) && e.GotPubrel?
    ensures Tracks(es + [e], accepted, AckList(live, PUBREL, EventId(e), e.bytes), k)
  {
    hide EntryOf, ReleasedAfter, MarkAcked;
    var es', live' := es + [e], AckList(live, PUBREL, EventId(e), e.bytes);
    forall x: nat | x < |live'|
      ensures EntryOf(es', accepted[k + x], live'[x])
    {
      EntryMarked(es, e, accepted[k + x], live[x]);
    }
    forall i: nat | i < k
      ensures QueuedAt(es', accepted[i]) && ReleasedAfter(es', accepted[i], IdAt(es', accepted[i]))
    {
      ReleasedStays(es, e, accepted[i], IdAt(es, accepted[i]));
    }
  }

  /** Taking f released entries off the front. */
  lemma TracksTaken(es: seq<Event>, accepted: seq<nat>, live: seq<Entry>, k: nat, f: nat)
    requires Tracks(es, accepted, live, k) && f <= |live| && forall x: nat | x < f :: Finished(live[x])
    ensures Tracks(es, accepted, live[f..], k + f)
  {
    forall i: nat | i < k + f
      ensures QueuedAt(es, accepted[i]) && ReleasedAfter(es, accepted[i], IdAt(es, accepted[i]))
    {
      if i >= k { assert EntryOf(es, accepted[k + (i - k)], live[i - k]) && Finished(live[i - k]); }
    }
    hide EntryOf, ReleasedAfter;
    forall x: nat | x < |live[f..]|
      ensures EntryOf(es, accepted[k + f + x], live[f..][x])
    {
      assert EntryOf(es, accepted[k + (f + x)], live[f + x]);
    }
  }

  /** What processAcked publishes is the next f accepted messages. */
  lemma {:induction false} TakenPublishes(es: seq<Event>, accepted: seq<nat>, live: seq<Entry>, k: nat, f: nat)
    requires Tracks(es, accepted, live, k) && f <= |live| && forall x: nat | x < f :: Finished(live[x])
    requires forall i: nat | i < k + f :: QueuedAt(es, accepted[i])
    ensures FirstMessages(es, accepted, k) + Publishes(live[..f]) == FirstMessages(es, accepted, k + f)
    decreases f
  {
    hide EntryOf, Publishes, QueuedAt, Tracks, Finished, FirstMessages, MsgAt;
    TracksLength(es, accepted, live, k);
    if f == 0 {
      NoPublishes(live);
    } else {
      TracksTaken(es, accepted, live, k, 1);
      TakenPublishes(es, accepted, live[1..], k + 1, f - 1);
      assert live[..f][1..] == live[1..][..f - 1];
      FirstPublish(es, accepted, live, k, f);
      FirstMessagesStep(es, accepted, k);
      Glue(FirstMessages(es, accepted, k), MsgAt(es, accepted[k]), Publishes(live[..f]), Publishes(live[1..][..f - 1]),
           FirstMessages(es, accepted, k + 1), FirstMessages(es, accepted, k + f));
    }
  }

  lemma TracksLength(es: seq<Event>, accepted: seq<nat>, live: seq<Entry>, k: nat)
    requires Tracks(es, accepted, live, k)
    ensures |accepted| == k + |live|
  {
  }

  lemma Glue(front: seq<Publish>, m: Publish, all: seq<Publish>, rest: seq<Publish>, next: seq<Publish>,
             whole: seq<Publish>)
    requires all == [m] + rest && next == front + [m] && next + rest == whole
    ensures front + all == whole
  {
    assert front + ([m] + rest) == (front + [m]) + rest;
  }

  lemma FirstMessagesStep(es: seq<Event>, accepted: seq<nat>, k: nat)
    requires k < |accepted| && forall i: nat | i < k + 1 :: QueuedAt(es, accepted[i])
    ensures FirstMessages(es, accepted, k + 1) == FirstMessages(es, accepted, k) + [MsgAt(es, accepted[k])]
  {
  }

  lemma NoPublishes(live: seq<Entry>)
    ensures Publishes(live[..0]) == []
  {
  }

  lemma FirstPublish(es: seq<Event>, accepted: seq<nat>, live: seq<Entry>, k: nat, f: nat)
    requires Tracks(es, accepted, live, k) && 0 < f <= |live| && Finished(live[0])
    ensures QueuedAt(es, accepted[k])
    ensures Publishes(live[..f]) == [MsgAt(es, accepted[k])] + Publishes(live[..f][1..])
  {
    hide PublishCodec.Decode, AckPackets.Decode, ReleasedAfter;
    assert EntryOf(es, accepted[k + 0], live[0]);
  }

  /** The state after a run: the released messages are the first accepted ones, and the oldest
      queued message has not been released. */
  ghost predicate RunInv(es: seq<Event>, t: Trace, k: nat) {
    && ValidQueue(t.r.queue)
    && Tracks(es, t.accepted, t.r.queue.live, k)
    && t.r.released == FirstMessages(es, t.accepted, k)
    && (t.r.queue.live != [] ==> !Finished(t.r.queue.live[0]))
  }

  lemma {:induction false} SameMessages(es: seq<Event>, e: Event, accepted: seq<nat>, extra: seq<nat>, k: nat)
    requires k <= |accepted| && forall i: nat | i < k :: QueuedAt(es, accepted[i])
    ensures forall i: nat | i < k :: QueuedAt(es + [e], (accepted + extra)[i])
    ensures FirstMessages(es + [e], accepted + extra, k) == FirstMessages(es, accepted, k)
    decreases k
  {
    forall i: nat | i < k
      ensures QueuedAt(es + [e], (accepted + extra)[i])
      ensures MsgAt(es + [e], (accepted + extra)[i]) == MsgAt(es, accepted[i])
    {
      assert QueuedAt(es, accepted[i]);
    }
    hide QueuedAt, MsgAt;
    if k > 0 { SameMessages(es, e, accepted, extra, k - 1); }
  }

  lemma PublishKeepsInv(es: seq<Event>, t: Trace, k: nat, e: Event)
    requires RunInv(es, t, k) && IsQueued(e)
    ensures var ok := Accepts(t.r.queue, InsertOf(e));
            RunInv(es + [e], Trace(Next(t.r, e), if ok then t.accepted + [|es|] else t.accepted), k)
  {
    hide Legal, EntryOf, ReleasedAfter, PublishCodec.Decode, AckPackets.Decode, HasId, DistinctIds, FirstMessages;
    StepKeepsValid(t.r.queue, InsertOf(e));
    if Accepts(t.r.queue, InsertOf(e)) {
      TracksAccepted(es, e, t.accepted, t.r.queue.live, k);
      SameMessages(es, e, t.accepted, [|es|], k);
    } else {
      TracksStays(es, e, t.accepted, t.r.queue.live, k);
      SameMessages(es, e, t.accepted, [], k);
      assert t.accepted + [] == t.accepted;
    }
  }

  lemma PubrelKeepsInv(es: seq<Event>, t: Trace, k: nat, e: Event)
    requires RunInv(es, t, k) && Legal(e) && e.GotPubrel?
    ensures var q := Step(t.r.queue, AckOf(e));
            RunInv(es + [e], Trace(Next(t.r, e), t.accepted), k + FinishedPrefix(q.live))
  {
    hide EntryOf, ReleasedAfter, QueuedAt, PublishCodec.Decode, AckPackets.Decode, HasId, DistinctIds;
    hide FirstMessages, AckList, Publishes;
    var q := Step(t.r.queue, AckOf(e));
    StepKeepsValid(t.r.queue, AckOf(e));
    StepKeepsValid(q, Acked);
    TracksMarked(es, e, t.accepted, t.r.queue.live, k);
    SameMessages(es, e, t.accepted, [], k);
    assert t.accepted + [] == t.accepted;
    var f := FinishedPrefix(q.live);
    TracksTaken(es + [e], t.accepted, q.live, k, f);
    TakenPublishes(es + [e], t.accepted, q.live, k, f);
  }

  lemma OtherKeepsInv(es: seq<Event>, t: Trace, k: nat, e: Event)
    requires RunInv(es, t, k) && Legal(e) && e.GotPublish? && !Queued(e)
    ensures RunInv(es + [e], Trace(Next(t.r, e), t.accepted), k)
  {
    hide EntryOf, ReleasedAfter, PublishCodec.Decode, AckPackets.Decode, HasId, DistinctIds, FirstMessages;
    TracksStays(es, e, t.accepted, t.r.queue.live, k);
    SameMessages(es, e, t.accepted, [], k);
    assert t.accepted + [] == t.accepted;
  }

  lemma {:induction false} RunHasInv(es: seq<Event>) returns (k: nat)
    requires AllLegal(es)
    ensures RunInv(es, Run(es), k) && k == |Run(es).r.released|
    decreases |es|
  {
    hide RunInv, Next, Legal, Queued, Accepts, InsertOf, AckOf, Step, FinishedPrefix;
    if es == [] {
      StartHasInv();
      k := 0;
    } else {
      var n := |es| - 1;
      AllLegalPrefix(es);
      var j := RunHasInv(es[..n]);
      var t, e := Run(es[..n]), es[n];
      assert es == es[..n] + [e];
      k := EventKeepsInv(es[..n], t, j, e);
    }
    ReleasedCount(es, Run(es), k);
  }

  lemma StartHasInv()
    ensures RunInv([], Trace(Start(), []), 0)
  {
    EmptyIsValid();
  }

  /** The trace after one more event. */
  function Extend(es: seq<Event>, t: Trace, e: Event): Trace
    requires Legal(e)
  {
    Trace(Next(t.r, e), if Queued(e) && Accepts(t.r.queue, InsertOf(e)) then t.accepted + [|es|] else t.accepted)
  }

  lemma EventKeepsInv(es: seq<Event>, t: Trace, j: nat, e: Event) returns (k: nat)
    requires RunInv(es, t, j) && Legal(e)
    ensures RunInv(es + [e], Extend(es, t, e), k)
  {
    hide RunInv, Next, Legal, Accepts;
    if e.GotPubrel? {
      PubrelKeepsInv(es, t, j, e);
      k := j + FinishedPrefix(Step(t.r.queue, AckOf(e)).live);
    } else if Queued(e) {
      PublishKeepsInv(es, t, j, e);
      k := j;
    } else {
      OtherKeepsInv(es, t, j, e);
      k := j;
    }
  }

  lemma ReleasedCount(es: seq<Event>, t: Trace, k: nat)
    requires RunInv(es, t, k)
    ensures k == |t.r.released|
  {
  }

  // ------------------------------------------------------------------
  // Exactly once
  // ------------------------------------------------------------------

  /** Every accepted position holds a QoS 2 PUBLISH. */
  lemma AcceptedAreQueued(es: seq<Event>)
    requires AllLegal(es)
    ensures |Run(es).r.released| <= |Run(es).accepted|
    ensures forall i: nat | i < |Run(es).accepted| :: QueuedAt(es, Run(es).accepted[i])
  {
    hide Run, ReleasedAfter, QueuedAt, FirstMessages, Legal, EventId;
    var k := RunHasInv(es);
    var t := Run(es);
    forall i: nat | i < |t.accepted|
      ensures QueuedAt(es, t.accepted[i])
    {
      if i >= k { assert EntryOf(es, t.accepted[k + (i - k)], t.r.queue.live[i - k]); }
    }
  }

  /** The positions increase: no event is accepted twice. */
  ghost predicate Increasing(ps: seq<nat>, bound: nat) {
    && (forall i, j | 0 <= i < j < |ps| :: ps[i] < ps[j])
    && (forall i | 0 <= i < |ps| :: ps[i] < bound)
  }

  lemma {:induction false} AcceptedIncreases(es: seq<Event>)
    requires AllLegal(es)
    ensures Increasing(Run(es).accepted, |es|)
    decreases |es|
  {
    hide Next, Legal, Queued, Accepts, InsertOf;
    if es != [] {
      AllLegalPrefix(es);
      AcceptedIncreases(es[..|es| - 1]);
    }
  }

  /** Over every run, onPublish has seen the first accepted QoS 2 messages, each once and in the
      order of acceptance, which is the order of arrival. */
  lemma ReleasedInOrder(es: seq<Event>)
    requires AllLegal(es)
    ensures Increasing(Run(es).accepted, |es|)
    ensures |Run(es).r.released| <= |Run(es).accepted|
    ensures forall i: nat | i < |Run(es).r.released| ::
              QueuedAt(es, Run(es).accepted[i]) && Run(es).r.released[i] == MsgAt(es, Run(es).accepted[i])
  {
    hide Run, ReleasedAfter, QueuedAt, EntryOf, FirstMessages;
    AcceptedIncreases(es);
    var k := RunHasInv(es);
    var t := Run(es);
    forall i: nat | i < k
      ensures QueuedAt(es, t.accepted[i]) && t.r.released[i] == MsgAt(es, t.accepted[i])
    {
      FirstMessagesAt(es, t.accepted, k, i);
    }
  }

  /** The i-th accepted message has been handed to onPublish exactly when every message accepted
      no later has had a PUBREL after it arrived. */
  lemma ReleasedExactly(es: seq<Event>, i: nat)
    requires AllLegal(es) && i < |Run(es).accepted|
    ensures forall h: nat | h <= i :: QueuedAt(es, Run(es).accepted[h])
    ensures i < |Run(es).r.released|
       <==> forall h: nat | h <= i :: ReleasedAfter(es, Run(es).accepted[h], IdAt(es, Run(es).accepted[h]))
  {
    hide Run, ReleasedAfter, QueuedAt;
    AcceptedAreQueued(es);
    var k := RunHasInv(es);
    var t := Run(es);
    if i >= k {
      assert EntryOf(es, t.accepted[k + 0], t.r.queue.live[0]);
      assert !ReleasedAfter(es, t.accepted[k], IdAt(es, t.accepted[k]));
    }
  }

  predicate HasIdAt(es: seq<Event>, p: nat, id: uint16) {
    QueuedAt(es, p) && IdAt(es, p) == id
  }

  /** One of the accepted messages from the k-th on has the id. */
  ghost predicate PendingFrom(es: seq<Event>, accepted: seq<nat>, k: nat, id: uint16) {
    exists i: nat :: k <= i < |accepted| && HasIdAt(es, accepted[i], id)
  }

  lemma PendingIsLive(es: seq<Event>, accepted: seq<nat>, live: seq<Entry>, k: nat, id: uint16)
    requires Tracks(es, accepted, live, k)
    ensures HasId(live, id) <==> PendingFrom(es, accepted, k, id)
  {
    hide ReleasedAfter, Legal, EventId;
    if HasId(live, id) {
      var x: nat :| x < |live| && live[x].pktid == id;
      assert EntryOf(es, accepted[k + x], live[x]);
      assert HasIdAt(es, accepted[k + x], id);
    }
    if PendingFrom(es, accepted, k, id) {
      var i: nat :| k <= i < |accepted| && HasIdAt(es, accepted[i], id);
      assert EntryOf(es, accepted[k + (i - k)], live[i - k]);
      assert live[i - k].pktid == id;
    }
  }

  /** A QoS 2 PUBLISH is accepted if and only if no earlier message with its id is still waiting to
      be handed on; so a repeated one is ignored, and a new one never is. */
  lemma AcceptedExactly(es: seq<Event>, e: Event)
    requires AllLegal(es) && IsQueued(e)
    ensures AllLegal(es + [e])
    ensures var t := Run(es);
            var pending := PendingFrom(es, t.accepted, |t.r.released|, EventId(e));
            Run(es + [e]).accepted == t.accepted + (if pending then [] else [|es|])
  {
    hide Run, Tracks, Legal, EventId, QueuedAt, PendingFrom, HasId, FirstMessages;
    RunOneMore(es, e);
    var k := RunHasInv(es);
    PendingIsLive(es, Run(es).accepted, Run(es).r.queue.live, k, EventId(e));
  }

  lemma RunOneMore(es: seq<Event>, e: Event)
    requires AllLegal(es) && IsQueued(e)
    ensures AllLegal(es + [e])
    ensures Run(es + [e]).accepted
         == Run(es).accepted + (if HasId(Run(es).r.queue.live, EventId(e)) then [] else [|es|])
  {
    hide Next, Legal, EventId, HasId, Accepts, Queued, InsertOf;
    RunExtends(es, e);
    AcceptsExactly(Run(es).r.queue, e);
  }

  lemma RunExtends(es: seq<Event>, e: Event)
    requires AllLegal(es) && Legal(e)
    ensures AllLegal(es + [e]) && Run(es + [e]) == Extend(es, Run(es), e)
  {
    hide Legal, Extend;
    assert (es + [e])[..|es|] == es;
  }

  lemma AcceptsExactly(q: Queue, e: Event)
    requires IsQueued(e)
    ensures Accepts(q, InsertOf(e)) <==> !HasId(q.live, EventId(e))
  {
    hide HasId;
  }

  // ------------------------------------------------------------------
  // Replies
  // ------------------------------------------------------------------

  /** The reply an event asks for: PUBACK for QoS 1, PUBREC for QoS 2, PUBCOMP for PUBREL. On the
      heartbeat topic, only a QoS 1 message with a number in it is answered. */
  function Demands(e: Event): Option<Reply>
    requires Legal(e)
  {
    if e.GotPubrel? then Some(Pubcomp(EventId(e)))
    else if Msg(e).topic == HEARTBEAT_TOPIC then
      if Msg(e).qos == 1 && Atoi(Msg(e).payload).Some? then Some(Puback(EventId(e))) else None
    else if Msg(e).qos == 1 then Some(Puback(EventId(e)))
    else if Msg(e).qos == 2 then Some(Pubrec(EventId(e)))
    else None
  }

  predicate Demanding(e: Event) {
    Legal(e) && Demands(e).Some?
  }

  /** Reply i answers the event at position ps[i]. */
  ghost predicate Answers(es: seq<Event>, ps: seq<nat>, replies: seq<Reply>) {
    && |ps| == |replies|
    && Increasing(ps, |es|)
    && (forall i | 0 <= i < |ps| :: Demanding(es[ps[i]]) && Demands(es[ps[i]]) == Some(replies[i]))
    && (forall p: nat | p < |es| && Demanding(es[p]) :: p in ps)
  }

  /** Over every run, each event that asks for a reply gets exactly one, repeated or not, the right
      one, and in the order of the events; nothing else is replied. */
  lemma {:induction false} EveryEventAnswered(es: seq<Event>) returns (ps: seq<nat>)
    requires AllLegal(es)
    ensures Answers(es, ps, Run(es).r.replies)
    decreases |es|
  {
    hide Legal, EventId, Atoi, Step, Publishes, Answers;
    if es == [] {
      NothingAnswered();
      ps := [];
    } else {
      var n := |es| - 1;
      AllLegalPrefix(es);
      var qs := EveryEventAnswered(es[..n]);
      assert es == es[..n] + [es[n]];
      ReplyStep(Run(es[..n]).r, es[n]);
      ps := AnswerOneMore(es[..n], qs, Run(es[..n]).r.replies, es[n]);
    }
  }

  lemma NothingAnswered()
    ensures Answers([], [], [])
  {
  }

  lemma ReplyStep(r: Receiver, e: Event)
    requires Legal(e)
    ensures Next(r, e).replies == r.replies + (match Demands(e) case None => [] case Some(x) => [x])
  {
  }

  lemma AnswerOneMore(es: seq<Event>, qs: seq<nat>, replies: seq<Reply>, e: Event) returns (ps: seq<nat>)
    requires Answers(es, qs, replies) && Legal(e)
    ensures Answers(es + [e], ps, replies + (match Demands(e) case None => [] case Some(x) => [x]))
  {
    hide Demands, Legal;
    var es' := es + [e];
    assert forall p: nat | p < |es| :: es'[p] == es[p];
    assert es'[|es|] == e;
    if Demands(e).Some? {
      ps := qs + [|es|];
      assert Increasing(ps, |es'|);
      AllDemandsMet(es, qs, e, ps);
    } else {
      ps := qs;
      AllDemandsMet(es, qs, e, ps);
      assert replies + [] == replies;
    }
  }

  lemma AllDemandsMet(es: seq<Event>, qs: seq<nat>, e: Event, ps: seq<nat>)
    requires forall p: nat | p < |es| && Demanding(es[p]) :: p in qs
    requires qs <= ps && (Demanding(e) ==> |es| in ps)
    ensures forall p: nat | p < |es + [e]| && Demanding((es + [e])[p]) :: p in ps
  {
    hide Demanding;
    forall p: nat | p < |es + [e]| && Demanding((es + [e])[p])
      ensures p in ps
    {
      if p < |es| {
        assert Demanding(es[p]);
        var i :| 0 <= i < |qs| && qs[i] == p;
        assert ps[i] == p;
      }
    }
  }

  /** A QoS 2 PUBLISH of "5" to the heartbeat topic. */
  const HEARTBEAT_FIVE: Publish := Publish(false, 2, false, HEARTBEAT_TOPIC, 1, [0x35])

  lemma FiveIsWellFormed()
    ensures WellFormed(HEARTBEAT_FIVE)
  {
    NoWildcardsInParts();
  }

  lemma NoWildcardsInParts()
    ensures forall c | c in HEARTBEAT_TOPIC :: c >= 0x2f
  {
    assert forall c | c in SYS :: c >= 0x2f;
    assert forall c | c in SERVICE :: c >= 0x2f;
    assert forall c | c in HEARTBEAT :: c >= 0x2f;
    assert forall c | c in UPDATE :: c >= 0x2f;
  }

  /** It sets the interval and gets no PUBREC. */
  lemma HeartbeatWithoutPubrec()
    ensures WellFormed(HEARTBEAT_FIVE)
    ensures var e := GotPublish(Packet(HEARTBEAT_FIVE));
            AllLegal([e]) && Run([e]).r.replies == [] && Run([e]).r.heartbeats == [5]
  {
    hide WellFormed, Packet, Run, AllLegal, Atoi;
    FiveIsWellFormed();
    FiveIsFive();
    HeartbeatUnanswered(HEARTBEAT_FIVE, 5);
  }

  lemma HeartbeatUnanswered(m: Publish, v: int)
    requires WellFormed(m) && m.qos == 2 && m.topic == HEARTBEAT_TOPIC && Atoi(m.payload) == Some(v)
    ensures var e := GotPublish(Packet(m));
            && AllLegal([e]) && Run([e]).r.replies == [] && Run([e]).r.heartbeats == [Clamp(v)]
  {
    hide Packet, PublishCodec.Decode, PublishCodec.Encode, WellFormed, Atoi, Len, Clamp;
    PacketArrives(m);
    var e := GotPublish(Packet(m));
    assert [e][..0] == [];
    assert Run([e]).r == Next(Start(), e);
  }

  lemma PacketArrives(m: Publish)
    requires WellFormed(m)
    ensures PublishCodec.Decode(Packet(m)) == Wire.Ok((m, Len(m)))
  {
    hide PublishCodec.Decode, PublishCodec.Encode, Len;
    RoundTrip(m, 0, []);
    EncodesWhole(m, 0);
    assert Packet(m) + [] == Packet(m);
  }

  lemma FiveIsFive()
    ensures Atoi([0x35]) == Some(5)
  {
    assert [0x35][..0] == [];
    assert Digits([]) == Some(0);
    assert Digits([0x35]) == Some(5);
  }
}
