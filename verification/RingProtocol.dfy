/**
 The single-producer/single-consumer byte ring of service/buffer.go as a step system.

 Every load or store of a shared cursor, every byte copied into or out of the ring and
 the store to the cached gate is a step of its own, so a run interleaves the producer
 and the consumer in any order at the granularity of single bytes. A wait on a condition
 variable is a step that is enabled when the condition it waits for holds.

 `written` and `delivered` are the history of the run: the bytes handed to a commit by
 the producer and the bytes the consumer had in hand when it moved its cursor.
 */
module RingProtocol {
  import opened Bits
  import opened Bytes
  import opened Prelude

  datatype Producer =
    | PIdle
    | PWaiting(n: nat)                          // in waitForWriteSpace(n), gate not yet good enough
    | PObserved(n: nat, cpos: nat)              // slow path: consumer cursor loaded, gate not yet stored
    | PHolding(n: nat, filled: map<nat, byte>)  // n bytes reserved, some of them written

  datatype Consumer =
    | CIdle
    | CLoaded(ppos: nat)                        // producer cursor loaded
    | CCopying(n: nat, out: seq<byte>, peek: bool)
    | CLive(n: nat)                             // holding a slice of the ring itself
    | CCopied(tmp: seq<byte>)                   // holding the assembled tmp slice

  datatype State = State(
    size: nat,
    buf: seq<byte>,
    pcur: nat,
    gate: nat,
    ccur: nat,
    producer: Producer,
    consumer: Consumer,
    written: seq<byte>,
    delivered: seq<byte>)

  datatype Step =
    // producer
    | Reserve(n: nat)
    | FastPath
    | LoadConsumer
    | Retry
    | StoreGate
    | Fill(j: nat, b: byte)
    | Publish(m: nat)
    | ProducerQuit
    // consumer
    | LoadProducer
    | StartRead(pl: nat)
    | ViewWait(n: nat)
    | ViewPeek(n: nat)
    | CopyByte
    | FinishRead
    | FinishPeek
    | Commit(m: nat)
    | ConsumerQuit

  predicate IsProducerStep(e: Step) {
    e.Reserve? || e.FastPath? || e.LoadConsumer? || e.Retry? || e.StoreGate? ||
    e.Fill? || e.Publish? || e.ProducerQuit?
  }

  /** pos & mask */
  function Slot(size: nat, pos: nat): (i: nat)
    requires IsPow2(size)
    ensures i < size
  {
    SlotIsMod(size, pos);
    And(pos, size - 1)
  }

  /** The gate refuses n more bytes: `wrap > gate || gate > ppos`. */
  predicate GateRefuses(s: State, n: nat) {
    s.pcur + n - s.size > s.gate || s.gate > s.pcur
  }

  /** How many bytes Read copies for a destination of length pl. */
  function ReadCount(s: State, ppos: nat, pl: nat): int
    requires IsPow2(s.size)
  {
    var cindex := Slot(s.size, s.ccur);
    var b := ppos - s.ccur;
    if s.ccur + pl < ppos then Min(pl, s.size - cindex)
    else if cindex + b < s.size then Min(pl, b)
    else Min(pl, s.size - cindex)
  }

  /** The consumer's state after asking for a view of m available bytes. */
  function ViewOf(s: State, m: nat): Consumer
    requires IsPow2(s.size)
  {
    if Slot(s.size, s.ccur) + m > s.size then CCopying(m, [], true) else CLive(m)
  }

  /** What the slice in the consumer's hand reads as at this moment. */
  function ViewBytes(s: State): seq<byte>
    requires IsPow2(s.size) && (s.consumer.CLive? || s.consumer.CCopied?)
    requires s.consumer.CLive? ==> Slot(s.size, s.ccur) + s.consumer.n <= |s.buf|
  {
    if s.consumer.CLive? then s.buf[Slot(s.size, s.ccur)..Slot(s.size, s.ccur) + s.consumer.n]
    else s.consumer.tmp
  }

  predicate Enabled(s: State, e: Step)
    requires Inv(s)
  {
    match e
    case Reserve(_) => s.producer.PIdle?
    case FastPath => s.producer.PWaiting? && !GateRefuses(s, s.producer.n)
    case LoadConsumer => s.producer.PWaiting? && GateRefuses(s, s.producer.n)
    case Retry => s.producer.PObserved? && s.pcur + s.producer.n - s.size > s.producer.cpos
    case StoreGate => s.producer.PObserved? && s.pcur + s.producer.n - s.size <= s.producer.cpos
    case Fill(j, _) => s.producer.PHolding? && j < s.producer.n
    case Publish(m) =>
      && s.producer.PHolding? && m <= s.producer.n
      && (forall j: nat | j < m :: j in s.producer.filled)
      && !GateRefuses(s, m)
    case ProducerQuit => true
    case LoadProducer => s.consumer.CIdle?
    case StartRead(_) => s.consumer.CLoaded? && s.ccur < s.consumer.ppos
    case ViewWait(n) => s.consumer.CLoaded? && n <= s.size && s.ccur + n <= s.consumer.ppos
    case ViewPeek(n) => s.consumer.CLoaded? && n <= s.size && s.ccur < s.consumer.ppos
    case CopyByte => s.consumer.CCopying? && |s.consumer.out| < s.consumer.n
    case FinishRead => s.consumer.CCopying? && !s.consumer.peek && |s.consumer.out| == s.consumer.n
    case FinishPeek => s.consumer.CCopying? && s.consumer.peek && |s.consumer.out| == s.consumer.n
    case Commit(m) =>
      && (s.consumer.CLive? || s.consumer.CCopied?)
      && m <= |ViewBytes(s)|
      && s.ccur + m <= s.pcur
    case ConsumerQuit => true
  }

  function Apply(s: State, e: Step): State
    requires Inv(s) && Enabled(s, e)
  {
    match e
    case Reserve(n) => s.(producer := PWaiting(n))
    case FastPath => s.(producer := PHolding(s.producer.n, map[]))
    case LoadConsumer => s.(producer := PObserved(s.producer.n, s.ccur))
    case Retry => s.(producer := PWaiting(s.producer.n))
    case StoreGate => s.(gate := s.producer.cpos, producer := PHolding(s.producer.n, map[]))
    case Fill(j, b) =>
      s.(buf := s.buf[Slot(s.size, s.pcur + j) := b],
         producer := PHolding(s.producer.n, s.producer.filled[j := b]))
    case Publish(m) =>
      s.(pcur := s.pcur + m,
         written := s.written + seq(m, j requires 0 <= j < m => s.producer.filled[j]),
         producer := PIdle)
    case ProducerQuit => s.(producer := PIdle)
    case LoadProducer => s.(consumer := CLoaded(s.pcur))
    case StartRead(pl) =>
      ReadCountInRange(s, s.consumer.ppos, pl);
      s.(consumer := CCopying(ReadCount(s, s.consumer.ppos, pl), [], false))
    case ViewWait(n) => s.(consumer := ViewOf(s, n))
    case ViewPeek(n) => s.(consumer := ViewOf(s, Min(n, s.consumer.ppos - s.ccur)))
    case CopyByte =>
      s.(consumer := s.consumer.(out := s.consumer.out + [s.buf[Slot(s.size, s.ccur + |s.consumer.out|)]]))
    case FinishRead =>
      s.(ccur := s.ccur + s.consumer.n, delivered := s.delivered + s.consumer.out, consumer := CIdle)
    case FinishPeek => s.(consumer := CCopied(s.consumer.out))
    case Commit(m) =>
      s.(ccur := s.ccur + m, delivered := s.delivered + ViewBytes(s)[..m], consumer := CIdle)
    case ConsumerQuit => s.(consumer := CIdle)
  }

  // ------------------------------------------------------------------
  // The invariant
  // ------------------------------------------------------------------

  ghost predicate InvCursors(s: State) {
    && IsPow2(s.size) && |s.buf| == s.size
    && s.gate <= s.ccur <= s.pcur <= s.gate + s.size
    && |s.written| == s.pcur
    && s.delivered == s.written[..s.ccur]
  }

  /** Every byte between the cursors is still in its slot. */
  ghost predicate InvUnread(s: State)
    requires InvCursors(s)
  {
    forall k: nat | s.ccur <= k < s.pcur :: s.buf[Slot(s.size, k)] == s.written[k]
  }

  ghost predicate InvProducer(s: State)
    requires InvCursors(s)
  {
    match s.producer
    case PObserved(_, cpos) => s.gate <= cpos <= s.ccur
    case PHolding(n, filled) =>
      && s.pcur + n <= s.gate + s.size
      && forall j: nat | j in filled :: j < n && s.buf[Slot(s.size, s.pcur + j)] == filled[j]
    case _ => true
  }

  ghost predicate InvConsumer(s: State)
    requires InvCursors(s)
  {
    match s.consumer
    case CIdle => true
    case CLoaded(ppos) => s.ccur <= ppos <= s.pcur
    case CCopying(n, out, _) =>
      && s.ccur + n <= s.pcur && |out| <= n
      && out == s.written[s.ccur..s.ccur + |out|]
    case CLive(n) => s.ccur + n <= s.pcur && Slot(s.size, s.ccur) + n <= s.size
    case CCopied(tmp) => s.ccur + |tmp| <= s.pcur && tmp == s.written[s.ccur..s.ccur + |tmp|]
  }

  ghost predicate Inv(s: State) {
    InvCursors(s) && InvUnread(s) && InvProducer(s) && InvConsumer(s)
  }

  ghost predicate Init(s: State) {
    && IsPow2(s.size) && |s.buf| == s.size
    && s.pcur == 0 && s.gate == 0 && s.ccur == 0
    && s.producer == PIdle && s.consumer == CIdle
    && s.written == [] && s.delivered == []
  }

  lemma SlotIsMod(size: nat, pos: nat)
    requires IsPow2(size)
    ensures And(pos, size - 1) == pos % size < size
  {
    var k: nat :| size == Pow2(k);
    MaskIsMod(pos, k);
  }

  /** Two positions less than a ring apart occupy different slots. */
  lemma DistinctSlots(size: nat, a: nat, b: nat)
    requires IsPow2(size) && a < b < a + size
    ensures Slot(size, a) != Slot(size, b)
  {
    SlotIsMod(size, a);
    SlotIsMod(size, b);
    ModDistinct(a, b, size);
  }

  lemma SlotAfter(size: nat, a: nat, i: nat)
    requires IsPow2(size) && Slot(size, a) + i < size
    ensures Slot(size, a + i) == Slot(size, a) + i
  {
    SlotIsMod(size, a);
    SlotIsMod(size, a + i);
    ModAfter(a, i, size);
  }

  lemma ReadCountInRange(s: State, ppos: nat, pl: nat)
    requires IsPow2(s.size) && s.ccur < ppos
    ensures 0 <= ReadCount(s, ppos, pl) <= Min(pl, ppos - s.ccur)
    ensures Slot(s.size, s.ccur) + ReadCount(s, ppos, pl) <= s.size
    ensures pl > 0 ==> ReadCount(s, ppos, pl) > 0
  {
  }

  // ------------------------------------------------------------------
  // Every step keeps the invariant
  // ------------------------------------------------------------------

  /** A byte stored inside a reservation lands on no unread byte. */
  lemma FillSparesUnread(s: State, j: nat)
    requires Inv(s) && s.producer.PHolding? && j < s.producer.n
    ensures forall k: nat | s.ccur <= k < s.pcur :: Slot(s.size, k) != Slot(s.size, s.pcur + j)
    ensures forall k: nat | s.pcur <= k < s.pcur + s.producer.n && k != s.pcur + j ::
              Slot(s.size, k) != Slot(s.size, s.pcur + j)
  {
    forall k: nat | s.ccur <= k < s.pcur + s.producer.n && k != s.pcur + j
      ensures Slot(s.size, k) != Slot(s.size, s.pcur + j)
    {
      if k < s.pcur + j {
        DistinctSlots(s.size, k, s.pcur + j);
      } else {
        DistinctSlots(s.size, s.pcur + j, k);
      }
    }
  }

  lemma FillKeepsInv(s: State, j: nat, b: byte)
    requires Inv(s) && Enabled(s, Fill(j, b))
    ensures Inv(Apply(s, Fill(j, b)))
  {
    var s' := Apply(s, Fill(j, b));
    FillSparesUnread(s, j);
    assert InvUnread(s');
    FillKeepsFilled(s, j, b);
    assert InvConsumer(s');
  }

  lemma FillKeepsFilled(s: State, j: nat, b: byte)
    requires Inv(s) && Enabled(s, Fill(j, b))
    ensures InvProducer(Apply(s, Fill(j, b)))
  {
    hide Slot, InvConsumer, InvUnread;
    var s' := Apply(s, Fill(j, b));
    FillSparesUnread(s, j);
    forall i: nat | i in s'.producer.filled
      ensures i < s'.producer.n && s'.buf[Slot(s'.size, s'.pcur + i)] == s'.producer.filled[i]
    {
      if i != j { assert i in s.producer.filled; }
    }
  }

  lemma PublishKeepsUnread(s: State, m: nat)
    requires Inv(s) && Enabled(s, Publish(m))
    ensures InvCursors(Apply(s, Publish(m))) && InvUnread(Apply(s, Publish(m)))
  {
    hide Slot, InvConsumer;
    var s' := Apply(s, Publish(m));
    assert s'.written[..s'.ccur] == s.written[..s.ccur];
    forall k: nat | s'.ccur <= k < s'.pcur
      ensures s'.buf[Slot(s'.size, k)] == s'.written[k]
    {
      if k >= s.pcur { assert (k - s.pcur) in s.producer.filled; }
    }
  }

  /** Publishing extends the stream, so what the consumer has copied is still its next part. */
  lemma PublishKeepsConsumer(s: State, s': State)
    requires InvCursors(s) && InvConsumer(s) && InvCursors(s')
    requires s.written <= s'.written
    requires s'.consumer == s.consumer && s'.ccur == s.ccur && s'.size == s.size
    ensures InvConsumer(s')
  {
    match s.consumer
    case CCopying(n, out, _) =>
      assert s'.written[s.ccur..s.ccur + |out|] == s.written[s.ccur..s.ccur + |out|];
    case CCopied(tmp) =>
      assert s'.written[s.ccur..s.ccur + |tmp|] == s.written[s.ccur..s.ccur + |tmp|];
    case _ =>
  }

  lemma PublishKeepsInv(s: State, m: nat)
    requires Inv(s) && Enabled(s, Publish(m))
    ensures Inv(Apply(s, Publish(m)))
  {
    PublishKeepsUnread(s, m);
    PublishKeepsConsumer(s, Apply(s, Publish(m)));
  }

  lemma ViewIsStream(s: State)
    requires Inv(s) && (s.consumer.CLive? || s.consumer.CCopied?)
    ensures s.ccur + |ViewBytes(s)| <= s.pcur
    ensures ViewBytes(s) == s.written[s.ccur..s.ccur + |ViewBytes(s)|]
  {
    if s.consumer.CLive? {
      var v := ViewBytes(s);
      forall i: nat | i < |v|
        ensures v[i] == s.written[s.ccur + i]
      {
        SlotAfter(s.size, s.ccur, i);
      }
    }
  }

  lemma CopyByteKeepsInv(s: State)
    requires Inv(s) && Enabled(s, CopyByte)
    ensures Inv(Apply(s, CopyByte))
  {
    hide Slot;
    var k := s.ccur + |s.consumer.out|;
    assert s.buf[Slot(s.size, k)] == s.written[k];
    assert s.written[s.ccur..k + 1] == s.written[s.ccur..k] + [s.written[k]];
  }

  lemma FinishReadKeepsInv(s: State)
    requires Inv(s) && Enabled(s, FinishRead)
    ensures Inv(Apply(s, FinishRead))
  {
    hide Slot;
    var c := s.ccur + s.consumer.n;
    assert s.written[..c] == s.written[..s.ccur] + s.written[s.ccur..c];
  }

  lemma CommitKeepsInv(s: State, m: nat)
    requires Inv(s) && Enabled(s, Commit(m))
    ensures Inv(Apply(s, Commit(m)))
  {
    hide Slot, ViewBytes;
    ViewIsStream(s);
    var c := s.ccur + m;
    assert s.written[..c] == s.written[..s.ccur] + s.written[s.ccur..c];
    assert ViewBytes(s)[..m] == s.written[s.ccur..c];
  }

  /** Starting a read, taking a view or giving up changes the consumer's own state only. */
  lemma LocalConsumerStepKeepsInv(s: State, e: Step)
    requires Inv(s) && Enabled(s, e)
    requires e.LoadProducer? || e.StartRead? || e.ViewWait? || e.ViewPeek? || e.FinishPeek? || e.ConsumerQuit?
    ensures Inv(Apply(s, e))
  {
    hide Slot;
    var s' := Apply(s, e);
    if e.StartRead? { ReadCountInRange(s, s.consumer.ppos, e.pl); }
    assert InvConsumer(s');
    assert InvUnread(s') && InvProducer(s') by { assert s' == s.(consumer := s'.consumer); }
  }

  lemma ConsumerStepKeepsInv(s: State, e: Step)
    requires Inv(s) && Enabled(s, e) && !IsProducerStep(e)
    ensures Inv(Apply(s, e))
  {
    match e
    case CopyByte => CopyByteKeepsInv(s);
    case FinishRead => FinishReadKeepsInv(s);
    case Commit(m) => CommitKeepsInv(s, m);
    case _ => LocalConsumerStepKeepsInv(s, e);
  }

  /** The other producer steps move the producer's own state and, at most, the gate. */
  lemma LocalProducerStepKeepsInv(s: State, e: Step)
    requires Inv(s) && Enabled(s, e)
    requires e.Reserve? || e.FastPath? || e.LoadConsumer? || e.Retry? || e.StoreGate? || e.ProducerQuit?
    ensures Inv(Apply(s, e))
  {
    hide Slot, IsPow2, ViewBytes, ViewOf, ReadCount;
    var s' := Apply(s, e);
    assert s' == s.(producer := s'.producer, gate := s'.gate);
    assert InvCursors(s') && InvProducer(s');
  }

  lemma StepKeepsInv(s: State, e: Step)
    requires Inv(s) && Enabled(s, e)
    ensures Inv(Apply(s, e))
  {
    if !IsProducerStep(e) {
      ConsumerStepKeepsInv(s, e);
    } else if e.Fill? {
      FillKeepsInv(s, e.j, e.b);
    } else if e.Publish? {
      PublishKeepsInv(s, e.m);
    } else {
      LocalProducerStepKeepsInv(s, e);
    }
  }

  // ------------------------------------------------------------------
  // Whole runs
  // ------------------------------------------------------------------

  /** The steps can be taken one after the other from s. */
  ghost predicate CanRun(s: State, steps: seq<Step>)
    requires Inv(s)
    decreases |steps|
  {
    steps == [] ||
    (Enabled(s, steps[0]) && (StepKeepsInv(s, steps[0]); CanRun(Apply(s, steps[0]), steps[1..])))
  }

  ghost function Run(s: State, steps: seq<Step>): State
    requires Inv(s) && CanRun(s, steps)
    decreases |steps|
  {
    if steps == [] then s
    else StepKeepsInv(s, steps[0]); Run(Apply(s, steps[0]), steps[1..])
  }

  ghost predicate Reaches(s: State, s': State) {
    Inv(s) && exists steps: seq<Step> :: CanRun(s, steps) && Run(s, steps) == s'
  }

  lemma {:induction false} RunKeepsInv(s: State, steps: seq<Step>)
    requires Inv(s) && CanRun(s, steps)
    ensures Inv(Run(s, steps))
    decreases |steps|
  {
    if steps != [] {
      StepKeepsInv(s, steps[0]);
      RunKeepsInv(Apply(s, steps[0]), steps[1..]);
    }
  }

  /** Safety of every interleaving that starts from an empty ring. */
  lemma RingSafety(s0: State, steps: seq<Step>)
    requires Init(s0) && CanRun(s0, steps)
    ensures var s := Run(s0, steps);
            && IsPow2(s.size) && |s.buf| == s.size
            && s.gate <= s.ccur <= s.pcur <= s.ccur + s.size
            && s.delivered <= s.written
            && |s.delivered| == s.ccur && |s.written| == s.pcur
            && (forall k: nat | s.ccur <= k < s.pcur :: s.buf[Slot(s.size, k)] == s.written[k])
            && (s.producer.PHolding? ==> s.producer.n <= s.size)
  {
    RunKeepsInv(s0, steps);
    var s := Run(s0, steps);
    forall k: nat | s.ccur <= k < s.pcur
      ensures Slot(s.size, k) < |s.buf| && s.buf[Slot(s.size, k)] == s.written[k]
    {
    }
  }

  /** A wait for more bytes than the ring holds never ends: neither way out of it is ever enabled. */
  lemma OversizedReservationNeverGranted(s: State)
    requires Inv(s)
    requires (s.producer.PWaiting? || s.producer.PObserved?) && s.producer.n > s.size
    ensures !Enabled(s, FastPath) && !Enabled(s, StoreGate)
  {
  }

  /** Once space is held, committing up to that much passes the gate check without waiting. */
  lemma PublishNeverBlocks(s: State, m: nat)
    requires Inv(s) && s.producer.PHolding? && m <= s.producer.n
    ensures !GateRefuses(s, m)
  {
  }

  /** A view can always be committed: ReadCommit never reports insufficient data for it. */
  lemma CommitNeverRefused(s: State, m: nat)
    requires Inv(s) && (s.consumer.CLive? || s.consumer.CCopied?) && m <= |ViewBytes(s)|
    ensures Enabled(s, Commit(m))
  {
    ViewIsStream(s);
  }

  lemma ProducerStepKeepsView(s: State, e: Step)
    requires Inv(s) && Enabled(s, e) && IsProducerStep(e)
    requires s.consumer.CLive? || s.consumer.CCopied?
    ensures Inv(Apply(s, e)) && Apply(s, e).consumer == s.consumer && ViewBytes(Apply(s, e)) == ViewBytes(s)
    ensures Apply(s, e).ccur == s.ccur
  {
    StepKeepsInv(s, e);
    var s' := Apply(s, e);
    ViewIsStream(s);
    ViewIsStream(s');
    assert s.written <= s'.written;
  }

  /** A view stays as it was under any number of producer steps, in place or copied. */
  lemma {:induction false} ViewIsStable(s: State, steps: seq<Step>)
    requires Inv(s) && CanRun(s, steps)
    requires s.consumer.CLive? || s.consumer.CCopied?
    requires forall e | e in steps :: IsProducerStep(e)
    ensures var s' := Run(s, steps);
            && Inv(s')
            && s'.consumer == s.consumer
            && ViewBytes(s') == ViewBytes(s) == s.written[s.ccur..s.ccur + |ViewBytes(s)|]
    decreases |steps|
  {
    RunKeepsInv(s, steps);
    ViewIsStream(s);
    if steps != [] {
      var s1 := Apply(s, steps[0]);
      ProducerStepKeepsView(s, steps[0]);
      ViewIsStable(s1, steps[1..]);
    }
  }
}
