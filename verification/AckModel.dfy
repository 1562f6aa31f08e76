/**
 What an ack queue means: an ordered list of entries with distinct packet ids, oldest first,
 next to one slot for an outstanding PINGREQ.
 */
module AckModel {
  import opened Bits
  import opened Bytes
  import opened MessageTypes

  /** The broker's queues start with 16 slots. */
  const DEFAULT_QUEUE_SIZE: nat := 16
  const EXPIRY_SECONDS: int := 5

  /** A message waiting for its ack. */
  datatype Entry = Entry(
    mtype: MessageType,
    state: MessageType,
    pktid: uint16,
    msgbuf: seq<byte>,
    ackbuf: seq<byte>,
    timestamp: int)

  datatype Ping = NoPing | PingWaiting | PingAnswered

  datatype Queue = Queue(size: nat, live: seq<Entry>, ping: Ping)

  /** A call on the queue; the clock and the outcome of Encode come from outside. */
  datatype Op =
    | Insert(mtype: MessageType, pktid: uint16, msgbuf: seq<byte>, encodes: bool, now: int)
    | Ack(atype: MessageType, id: uint16, ackbuf: seq<byte>)
    | WaitPing
    | AckPing
    | Acked
    | Clear(at: int)

  predicate AckType(t: MessageType) {
    t == PUBACK || t == PUBREC || t == PUBREL || t == PUBCOMP || t == SUBACK || t == UNSUBACK
  }

  /** The ack cycle of the entry is complete. */
  predicate Finished(e: Entry) {
    e.state == PUBACK || e.state == PUBREL || e.state == PUBCOMP || e.state == SUBACK || e.state == UNSUBACK
  }

  predicate Expired(e: Entry, now: int) {
    now > e.timestamp + EXPIRY_SECONDS
  }

  ghost predicate DistinctIds(q: seq<Entry>) {
    forall i, j | 0 <= i < j < |q| :: q[i].pktid != q[j].pktid
  }

  predicate HasId(q: seq<Entry>, id: uint16) {
    exists i | 0 <= i < |q| :: q[i].pktid == id
  }

  /** The length of the longest prefix of finished entries. */
  function FinishedPrefix(q: seq<Entry>): (n: nat)
    ensures n <= |q|
    ensures forall i | 0 <= i < n :: Finished(q[i])
    ensures n < |q| ==> !Finished(q[n])
  {
    if q == [] || !Finished(q[0]) then 0 else 1 + FinishedPrefix(q[1..])
  }

  /** The length of the longest prefix of expired entries. */
  function ExpiredPrefix(q: seq<Entry>, now: int): (n: nat)
    ensures n <= |q|
    ensures forall i | 0 <= i < n :: Expired(q[i], now)
    ensures n < |q| ==> !Expired(q[n], now)
  {
    if q == [] || !Expired(q[0], now) then 0 else 1 + ExpiredPrefix(q[1..], now)
  }

  function MarkAcked(e: Entry, t: MessageType, id: uint16, ackbuf: seq<byte>): Entry {
    if e.pktid == id then e.(state := t, ackbuf := ackbuf) else e
  }

  function AckList(q: seq<Entry>, t: MessageType, id: uint16, ackbuf: seq<byte>): (r: seq<Entry>)
    ensures |r| == |q|
  {
    seq(|q|, i requires 0 <= i < |q| => MarkAcked(q[i], t, id, ackbuf))
  }

  /** A full queue doubles before an insertion is even looked at. */
  function Grown(q: Queue): Queue {
    if |q.live| == q.size then q.(size := 2 * q.size) else q
  }

  function NewEntry(op: Op): Entry
    requires op.Insert?
  {
    Entry(op.mtype, RESERVED, op.pktid, op.msgbuf, [], op.now)
  }

  /** The insertion is accepted: a fresh id and an encodable message. */
  predicate Accepts(q: Queue, op: Op) {
    op.Insert? && op.encodes && !HasId(q.live, op.pktid)
  }

  function Step(q: Queue, op: Op): Queue {
    match op
    case Insert(_, _, _, _, _) =>
      var g := Grown(q);
      if Accepts(q, op) then g.(live := g.live + [NewEntry(op)]) else g
    case Ack(t, id, ackbuf) =>
      if AckType(t) then q.(live := AckList(q.live, t, id, ackbuf)) else q
    case WaitPing => q.(ping := PingWaiting)
    case AckPing => if q.ping.NoPing? then q else q.(ping := PingAnswered)
    case Acked =>
      q.(live := q.live[FinishedPrefix(q.live)..], ping := if q.ping.PingAnswered? then NoPing else q.ping)
    case Clear(now) => q.(live := q.live[ExpiredPrefix(q.live, now)..])
  }

  /** What the call takes off the queue. */
  function Removed(q: Queue, op: Op): seq<Entry> {
    match op
    case Acked => q.live[..FinishedPrefix(q.live)]
    case Clear(now) => q.live[..ExpiredPrefix(q.live, now)]
    case _ => []
  }

  ghost predicate ValidQueue(q: Queue) {
    && IsPow2(q.size) && |q.live| <= q.size
    && DistinctIds(q.live)
  }

  // ------------------------------------------------------------------
  // Every operation keeps the list well formed
  // ------------------------------------------------------------------

  /** Distinct 16-bit ids: at most 65536 of them, and at most 65535 if 0 is not among them. */
  lemma Pigeonhole(q: seq<Entry>)
    requires DistinctIds(q)
    ensures |q| <= 65536
    ensures !HasId(q, 0) ==> |q| <= 65535
  {
    var ids := set i | 0 <= i < |q| :: q[i].pktid as int;
    IdsCardinality(q, ids);
    RangeCardinality(ids, 0, 65536);
    if !HasId(q, 0) { RangeCardinality(ids, 1, 65536); }
  }

  lemma {:induction false} IdsCardinality(q: seq<Entry>, ids: set<int>)
    requires DistinctIds(q) && ids == set i | 0 <= i < |q| :: q[i].pktid as int
    ensures |ids| == |q|
  {
    if q != [] {
      var n := |q| - 1;
      var front := q[..n];
      var ids' := set i | 0 <= i < |front| :: front[i].pktid as int;
      IdsCardinality(front, ids');
      assert ids == ids' + {q[n].pktid as int};
    }
  }

  function Range(lo: int, hi: int): (r: set<int>)
    requires lo <= hi
    ensures forall x :: x in r <==> lo <= x < hi
    ensures |r| == hi - lo
    decreases hi - lo
  {
    if lo == hi then {} else Range(lo, hi - 1) + {hi - 1}
  }

  lemma RangeCardinality(s: set<int>, lo: int, hi: int)
    requires lo <= hi && s <= Range(lo, hi)
    ensures |s| <= hi - lo
  {
    var rest := Range(lo, hi) - s;
    assert Range(lo, hi) == s + rest;
  }

  lemma Pow2NotBetween(n: nat, k: nat)
    requires IsPow2(n) && n < Pow2(k + 1)
    ensures n <= Pow2(k)
  {
    var j: nat :| n == Pow2(j);
    if j > k { Pow2Monotone(k + 1, j); } else { Pow2Monotone(j, k); }
  }

  lemma Pow2Doubles(n: nat)
    requires IsPow2(n)
    ensures IsPow2(2 * n)
  {
    var j: nat :| n == Pow2(j);
    assert 2 * n == Pow2(j + 1);
  }

  lemma GrownKeepsValid(q: Queue)
    requires ValidQueue(q)
    ensures ValidQueue(Grown(q)) && |Grown(q).live| < Grown(q).size
  {
    if |q.live| == q.size {
      Pow2Doubles(q.size);
      Pigeonhole(q.live);
    }
  }

  lemma StepKeepsValid(q: Queue, op: Op)
    requires ValidQueue(q)
    ensures ValidQueue(Step(q, op))
  {
    match op
    case Insert(_, _, _, _, _) => GrownKeepsValid(q);
    case _ =>
  }

  // ------------------------------------------------------------------
  // Whole runs
  // ------------------------------------------------------------------

  /** The state after the calls, and the entries accepted and removed on the way, in order. */
  datatype History = History(q: Queue, accepted: seq<Entry>, removed: seq<Entry>)

  function Run(q: Queue, ops: seq<Op>): History {
    if ops == [] then History(q, [], [])
    else
      var h := Run(q, ops[..|ops| - 1]);
      var op := ops[|ops| - 1];
      History(Step(h.q, op),
              h.accepted + (if Accepts(h.q, op) then [NewEntry(op)] else []),
              h.removed + Removed(h.q, op))
  }

  function EmptyQueue(): Queue {
    Queue(DEFAULT_QUEUE_SIZE, [], NoPing)
  }

  lemma EmptyIsValid()
    ensures ValidQueue(EmptyQueue())
  {
    assert Pow2(4) == 16;
  }

  lemma {:induction false} RunKeepsValid(ops: seq<Op>)
    ensures ValidQueue(Run(EmptyQueue(), ops).q)
    decreases |ops|
  {
    if ops == [] {
      EmptyIsValid();
    } else {
      RunKeepsValid(ops[..|ops| - 1]);
      StepKeepsValid(Run(EmptyQueue(), ops[..|ops| - 1]).q, ops[|ops| - 1]);
    }
  }

  /** The part of an entry no ack touches. */
  function Identity(e: Entry): Entry {
    e.(state := RESERVED, ackbuf := [])
  }

  function Identities(q: seq<Entry>): (r: seq<Entry>)
    ensures |r| == |q|
  {
    seq(|q|, i requires 0 <= i < |q| => Identity(q[i]))
  }

  lemma IdentitiesConcat(a: seq<Entry>, b: seq<Entry>)
    ensures Identities(a + b) == Identities(a) + Identities(b)
  {
  }

  lemma StepConserves(q: Queue, op: Op)
    ensures Identities(q.live) + (if Accepts(q, op) then [NewEntry(op)] else [])
         == Identities(Removed(q, op)) + Identities(Step(q, op).live)
  {
    match op
    case Insert(_, _, _, _, _) =>
      if Accepts(q, op) {
        IdentitiesConcat(q.live, [NewEntry(op)]);
        assert Identities([NewEntry(op)]) == [NewEntry(op)];
      }
    case Ack(t, id, ackbuf) =>
      assert Identities(AckList(q.live, t, id, ackbuf)) == Identities(q.live);
    case Acked =>
      var n := FinishedPrefix(q.live);
      assert q.live == q.live[..n] + q.live[n..];
      IdentitiesConcat(q.live[..n], q.live[n..]);
    case Clear(now) =>
      var n := ExpiredPrefix(q.live, now);
      assert q.live == q.live[..n] + q.live[n..];
      IdentitiesConcat(q.live[..n], q.live[n..]);
    case _ =>
  }

  /** Nothing is lost, duplicated or reordered: over any run the accepted entries are the
      removed ones, in removal order, followed by the live ones. */
  lemma {:induction false} Conservation(ops: seq<Op>)
    ensures var h := Run(EmptyQueue(), ops);
            h.accepted == Identities(h.removed) + Identities(h.q.live)
    decreases |ops|
  {
    if ops != [] {
      hide Step, Removed, Identities, Accepts;
      var h := Run(EmptyQueue(), ops[..|ops| - 1]);
      var op := ops[|ops| - 1];
      Conservation(ops[..|ops| - 1]);
      StepConserves(h.q, op);
      IdentitiesConcat(h.removed, Removed(h.q, op));
      var added := if Accepts(h.q, op) then [NewEntry(op)] else [];
      AppendBoth(Identities(h.removed), Identities(h.q.live), added,
                 Identities(Removed(h.q, op)), Identities(Step(h.q, op).live));
    }
  }

  lemma AppendBoth(a: seq<Entry>, b: seq<Entry>, c: seq<Entry>, d: seq<Entry>, e: seq<Entry>)
    requires b + c == d + e
    ensures (a + b) + c == (a + d) + e
  {
    assert (a + b) + c == a + (b + c);
    assert (a + d) + e == a + (d + e);
  }

  /** Insertions carry times that never decrease. */
  ghost predicate ClockNeverGoesBack(ops: seq<Op>) {
    forall i, j | 0 <= i < j < |ops| && ops[i].Insert? && ops[j].Insert? :: ops[i].now <= ops[j].now
  }

  ghost predicate InAgeOrder(q: seq<Entry>) {
    forall i, j | 0 <= i < j < |q| :: q[i].timestamp <= q[j].timestamp
  }

  /** The accepted entries carry the times of insertions of the run. */
  lemma {:induction false} AcceptedTimes(ops: seq<Op>, k: nat)
    requires k < |Run(EmptyQueue(), ops).accepted|
    ensures exists i | 0 <= i < |ops| :: ops[i].Insert? && ops[i].now == Run(EmptyQueue(), ops).accepted[k].timestamp
    decreases |ops|
  {
    var n := |ops| - 1;
    var h := Run(EmptyQueue(), ops[..n]);
    if k < |h.accepted| {
      AcceptedTimes(ops[..n], k);
      var i :| 0 <= i < n && ops[..n][i].Insert? && ops[..n][i].now == h.accepted[k].timestamp;
      assert ops[i].Insert?;
    } else {
      assert ops[n].Insert?;
    }
  }

  lemma {:induction false} AcceptedInAgeOrder(ops: seq<Op>)
    requires ClockNeverGoesBack(ops)
    ensures InAgeOrder(Run(EmptyQueue(), ops).accepted)
    decreases |ops|
  {
    if ops != [] {
      var n := |ops| - 1;
      var h := Run(EmptyQueue(), ops[..n]);
      AcceptedInAgeOrder(ops[..n]);
      if Accepts(h.q, ops[n]) {
        forall k: nat | k < |h.accepted|
          ensures h.accepted[k].timestamp <= ops[n].now
        {
          AcceptedTimes(ops[..n], k);
          var i :| 0 <= i < n && ops[..n][i].Insert? && ops[..n][i].now == h.accepted[k].timestamp;
          assert ops[i].Insert?;
        }
      }
    }
  }

  lemma LiveInAgeOrder(ops: seq<Op>)
    requires ClockNeverGoesBack(ops)
    ensures InAgeOrder(Run(EmptyQueue(), ops).q.live)
  {
    hide Run;
    var h := Run(EmptyQueue(), ops);
    AcceptedInAgeOrder(ops);
    Conservation(ops);
    forall i, j | 0 <= i < j < |h.q.live|
      ensures h.q.live[i].timestamp <= h.q.live[j].timestamp
    {
      var r := |h.removed|;
      assert h.accepted[r + i] == Identity(h.q.live[i]) && h.accepted[r + j] == Identity(h.q.live[j]);
    }
  }

  /** When the clock never goes back, Clear leaves no expired entry behind. */
  lemma ClearRemovesEveryExpired(ops: seq<Op>, now: int)
    requires ClockNeverGoesBack(ops)
    ensures var q := Run(EmptyQueue(), ops).q;
            forall e | e in Step(q, Clear(now)).live :: !Expired(e, now)
  {
    hide Run;
    LiveInAgeOrder(ops);
    ClearOfOrdered(Run(EmptyQueue(), ops).q.live, now);
  }

  lemma ClearOfOrdered(live: seq<Entry>, now: int)
    requires InAgeOrder(live)
    ensures forall e | e in live[ExpiredPrefix(live, now)..] :: !Expired(e, now)
  {
    var n := ExpiredPrefix(live, now);
    forall i | n <= i < |live|
      ensures !Expired(live[i], now)
    {
      if n < i { assert live[n].timestamp <= live[i].timestamp; }
    }
  }

  /** No run queues more slots than 131072, so doubling never overflows an int64. */
  lemma {:induction false} SizeBound(ops: seq<Op>)
    ensures Run(EmptyQueue(), ops).q.size <= 131072
    decreases |ops|
  {
    if ops != [] {
      var n := |ops| - 1;
      SizeBound(ops[..n]);
      RunKeepsValid(ops[..n]);
      Pigeonhole(Run(EmptyQueue(), ops[..n]).q.live);
    }
  }

  lemma {:induction false} NoZeroId(ops: seq<Op>)
    requires forall op | op in ops :: op.Insert? ==> op.pktid != 0
    ensures !HasId(Run(EmptyQueue(), ops).q.live, 0)
    decreases |ops|
  {
    if ops != [] {
      var n := |ops| - 1;
      assert forall op | op in ops[..n] :: op in ops;
      assert ops[n] in ops;
      NoZeroId(ops[..n]);
      StepKeepsNoZero(Run(EmptyQueue(), ops[..n]).q, ops[n]);
    }
  }

  lemma StepKeepsNoZero(q: Queue, op: Op)
    requires !HasId(q.live, 0) && (op.Insert? ==> op.pktid != 0)
    ensures !HasId(Step(q, op).live, 0)
  {
    var q' := Step(q, op);
    forall i | 0 <= i < |q'.live|
      ensures q'.live[i].pktid != 0
    {
    }
  }

  /** Without packet id 0 the queue never exceeds 65536 slots. */
  lemma {:induction false} SizeBoundNonZero(ops: seq<Op>)
    requires forall op | op in ops :: op.Insert? ==> op.pktid != 0
    ensures Run(EmptyQueue(), ops).q.size <= 65536
    decreases |ops|
  {
    if ops != [] {
      var n := |ops| - 1;
      assert forall op | op in ops[..n] :: op in ops;
      SizeBoundNonZero(ops[..n]);
      NoZeroId(ops[..n]);
      RunKeepsValid(ops[..n]);
      var q := Run(EmptyQueue(), ops[..n]).q;
      Pigeonhole(q.live);
      if |q.live| == q.size {
        assert Pow2(8) == 256;
        assert Pow2(15) == 32768 && Pow2(16) == 65536;
        Pow2NotBetween(q.size, 15);
      }
    }
  }
}
