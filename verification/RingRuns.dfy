/** Whole buffer calls as runs of the step system: from idle sides to idle sides. */
module RingRuns {
  import opened Bits
  import opened Bytes
  import opened RingProtocol

  ghost predicate Idle(s: State) {
    Inv(s) && s.producer.PIdle? && s.consumer.CIdle?
  }

  lemma {:induction false} RunConcat(s: State, a: seq<Step>, b: seq<Step>)
    requires Inv(s) && CanRun(s, a) && Inv(Run(s, a)) && CanRun(Run(s, a), b)
    ensures CanRun(s, a + b) && Run(s, a + b) == Run(Run(s, a), b)
    decreases |a|
  {
    if a == [] {
      assert a + b == b;
    } else {
      StepKeepsInv(s, a[0]);
      RunConcat(Apply(s, a[0]), a[1..], b);
      assert (a + b)[1..] == a[1..] + b;
    }
  }

  lemma ReachesSelf(s: State)
    requires Inv(s)
    ensures Reaches(s, s)
  {
    assert CanRun(s, []) && Run(s, []) == s;
  }

  lemma ReachesKeepsInv(s: State, t: State)
    requires Reaches(s, t)
    ensures Inv(t)
  {
    var a: seq<Step> :| CanRun(s, a) && Run(s, a) == t;
    RunKeepsInv(s, a);
  }

  lemma ReachesThen(s: State, t: State, e: Step)
    requires Reaches(s, t) && Inv(t) && Enabled(t, e)
    ensures Reaches(s, Apply(t, e)) && Inv(Apply(t, e))
  {
    var a: seq<Step> :| CanRun(s, a) && Run(s, a) == t;
    StepKeepsInv(t, e);
    var u := Apply(t, e);
    assert [e][1..] == [];
    assert CanRun(u, []) && Run(u, []) == u;
    assert CanRun(t, [e]) && Run(t, [e]) == u;
    RunConcat(s, a, [e]);
  }

  lemma ReachesTransitive(s: State, t: State, u: State)
    requires Reaches(s, t) && Reaches(t, u)
    ensures Reaches(s, u)
  {
    var a: seq<Step> :| CanRun(s, a) && Run(s, a) == t;
    var b: seq<Step> :| CanRun(t, b) && Run(t, b) == u;
    RunConcat(s, a, b);
  }

  /** buf' is buf with p stored at the slots from position pos on. */
  ghost predicate Stored(buf: seq<byte>, buf': seq<byte>, pos: nat, p: seq<byte>) {
    && IsPow2(|buf|) && |buf'| == |buf| && |p| <= |buf|
    && (forall j: nat | pos <= j < pos + |p| :: buf'[Slot(|buf|, j)] == p[j - pos])
    && (forall i: nat | i < |buf| && (forall j: nat | pos <= j < pos + |p| :: Slot(|buf|, j) != i) :: buf'[i] == buf[i])
  }

  lemma StoredUnique(buf: seq<byte>, b1: seq<byte>, b2: seq<byte>, pos: nat, p: seq<byte>)
    requires Stored(buf, b1, pos, p) && Stored(buf, b2, pos, p)
    ensures b1 == b2
  {
    forall i: nat | i < |buf|
      ensures b1[i] == b2[i]
    {
      if j: nat :| pos <= j < pos + |p| && Slot(|buf|, j) == i {
        assert b1[Slot(|buf|, j)] == p[j - pos];
      }
    }
  }

  lemma StoredOneMore(buf: seq<byte>, mid: seq<byte>, pos: nat, p: seq<byte>, t: nat)
    requires t < |p| <= |buf| && Stored(buf, mid, pos, p[..t])
    ensures Stored(buf, mid[Slot(|buf|, pos + t) := p[t]], pos, p[..t + 1])
  {
    var last := Slot(|buf|, pos + t);
    forall j: nat | pos <= j < pos + t
      ensures Slot(|buf|, j) != last
    {
      DistinctSlots(|buf|, j, pos + t);
    }
    var buf' := mid[last := p[t]];
    forall i: nat | i < |buf| && (forall j: nat | pos <= j < pos + |p[..t + 1]| :: Slot(|buf|, j) != i)
      ensures buf'[i] == buf[i]
    {
      assert Slot(|buf|, pos + t) != i;
    }
  }

  /** The first t bytes of p, by offset. */
  function Offsets(p: seq<byte>, t: nat): map<nat, byte>
    requires t <= |p|
  {
    map j: nat | j < t :: p[j]
  }

  lemma OffsetsOneMore(p: seq<byte>, t: nat)
    requires t < |p|
    ensures Offsets(p, t + 1) == Offsets(p, t)[t := p[t]]
  {
  }

  lemma StoredNothing(s: State, p: seq<byte>)
    requires Inv(s) && s.producer == PHolding(|p|, map[])
    ensures |p| <= |s.buf| == s.size && Stored(s.buf, s.buf, s.pcur, p[..0]) && Offsets(p, 0) == map[]
  {
  }

  lemma FillOne(s: State, p: seq<byte>, t: nat) returns (u: State)
    requires Inv(s) && t < |p| && s.producer == PHolding(|p|, Offsets(p, t))
    ensures Enabled(s, Fill(t, p[t])) && u == Apply(s, Fill(t, p[t]))
    ensures u == s.(buf := s.buf[Slot(s.size, s.pcur + t) := p[t]], producer := PHolding(|p|, Offsets(p, t + 1)))
  {
    OffsetsOneMore(p, t);
    u := Apply(s, Fill(t, p[t]));
  }

  /** Filling a held reservation byte by byte. */
  lemma {:induction false} FillRun(s: State, p: seq<byte>, t: nat) returns (u: State)
    requires Inv(s) && s.producer == PHolding(|p|, map[]) && t <= |p|
    ensures Reaches(s, u) && Inv(u)
    ensures u == s.(buf := u.buf, producer := PHolding(|p|, Offsets(p, t)))
    ensures Stored(s.buf, u.buf, s.pcur, p[..t])
    decreases t
  {
    hide Inv, Enabled, Apply, Slot;
    hide Stored;
    StoredNothing(s, p);
    if t == 0 {
      u := s;
      ReachesSelf(s);
    } else {
      var m := FillRun(s, p, t - 1);
      u := FillOne(m, p, t - 1);
      ReachesThen(s, m, Fill(t - 1, p[t - 1]));
      StoredOneMore(s.buf, m.buf, s.pcur, p, t - 1);
    }
  }

  /** waitForWriteSpace(n) when the space is there: the gate may move up to the consumer cursor. */
  lemma ReserveRun(s: State, n: nat) returns (u: State)
    requires Idle(s) && s.pcur + n <= s.ccur + s.size
    ensures Reaches(s, u) && Inv(u)
    ensures u == s.(gate := if GateRefuses(s, n) then s.ccur else s.gate, producer := PHolding(n, map[]))
  {
    ReachesSelf(s);
    ReachesThen(s, s, Reserve(n));
    u := Apply(s, Reserve(n));
    if GateRefuses(s, n) {
      ReachesThen(s, u, LoadConsumer);
      u := Apply(u, LoadConsumer);
      ReachesThen(s, u, StoreGate);
      u := Apply(u, StoreGate);
    } else {
      ReachesThen(s, u, FastPath);
      u := Apply(u, FastPath);
    }
  }

  lemma ReserveQuitRun(s: State, n: nat)
    requires Idle(s) && s.pcur + n <= s.ccur + s.size
    ensures Reaches(s, s.(gate := if GateRefuses(s, n) then s.ccur else s.gate))
  {
    var h := ReserveRun(s, n);
    ReachesThen(s, h, ProducerQuit);
    assert Apply(h, ProducerQuit) == s.(gate := h.gate);
  }

  /** The state after Write(p). */
  ghost predicate Written(s: State, t: State, p: seq<byte>) {
    && t.size == s.size && t.ccur == s.ccur && t.consumer == s.consumer && t.producer == s.producer
    && t.delivered == s.delivered
    && |s.buf| == s.size && Stored(s.buf, t.buf, s.pcur, p)
    && t.pcur == s.pcur + |p|
    && t.gate == (if GateRefuses(s, |p|) then s.ccur else s.gate)
    && t.written == s.written + p
  }

  lemma WriteIsRun(s: State, t: State, p: seq<byte>)
    requires Idle(s) && s.pcur + |p| <= s.ccur + s.size && Written(s, t, p)
    ensures Reaches(s, t) && Idle(t)
  {
    var h := ReserveRun(s, |p|);
    var f := FillRun(h, p, |p|);
    assert p[..|p|] == p;
    ReachesTransitive(s, h, f);
    PublishNeverBlocks(f, |p|);
    ReachesThen(s, f, Publish(|p|));
    var u := Apply(f, Publish(|p|));
    assert seq(|p|, j requires 0 <= j < |p| => f.producer.filled[j]) == p;
    StoredUnique(s.buf, u.buf, t.buf, s.pcur, p);
    assert u == t;
  }

  /** What a granted Write leaves behind, seen from both sides of the step system. */
  lemma WriteOutcome(s: State, t: State, p: seq<byte>)
    requires Idle(s) && s.pcur + |p| <= s.ccur + s.size && Written(s, t, p)
    ensures Reaches(s, t) && Inv(t)
    ensures t.written[t.ccur..] == s.written[s.ccur..] + p
  {
    WriteIsRun(s, t, p);
  }

  /** Bytes stored into free space and not committed. */
  lemma PutIsRun(s: State, t: State, p: seq<byte>)
    requires Idle(s) && s.pcur + |p| <= s.gate + s.size
    requires Stored(s.buf, t.buf, s.pcur, p) && t == s.(buf := t.buf)
    ensures Reaches(s, t) && Idle(t)
  {
    var h := ReserveRun(s, |p|);
    var f := FillRun(h, p, |p|);
    assert p[..|p|] == p;
    ReachesTransitive(s, h, f);
    ReachesThen(s, f, ProducerQuit);
    StoredUnique(s.buf, f.buf, t.buf, s.pcur, p);
    assert Apply(f, ProducerQuit) == t;
  }

  /** The n bytes in the slots from position pos on. */
  function SlotBytes(buf: seq<byte>, pos: nat, n: nat): (r: seq<byte>)
    requires IsPow2(|buf|)
    ensures |r| == n
  {
    seq(n, j requires 0 <= j < n => buf[Slot(|buf|, pos + j)])
  }

  lemma SlotBytesStored(buf: seq<byte>, pos: nat, n: nat)
    requires IsPow2(|buf|) && n <= |buf|
    ensures Stored(buf, buf, pos, SlotBytes(buf, pos, n))
  {
    var p := SlotBytes(buf, pos, n);
    forall j: nat | pos <= j < pos + n
      ensures buf[Slot(|buf|, j)] == p[j - pos]
    {
      assert pos + (j - pos) == j;
    }
  }

  lemma StoredSlotBytes(buf: seq<byte>, buf': seq<byte>, pos: nat, p: seq<byte>)
    requires Stored(buf, buf', pos, p)
    ensures SlotBytes(buf', pos, |p|) == p
  {
    var r := SlotBytes(buf', pos, |p|);
    forall j: nat | j < |p|
      ensures r[j] == p[j]
    {
      assert buf'[Slot(|buf|, pos + j)] == p[pos + j - pos];
    }
  }

  /** The unread bytes, read back from their slots. */
  lemma UnreadSlots(s: State, n: nat)
    requires Inv(s) && s.ccur + n <= s.pcur
    ensures SlotBytes(s.buf, s.ccur, n) == s.written[s.ccur..s.ccur + n]
  {
  }

  /** Copying out of the ring byte by byte. */
  lemma {:induction false} CopyRun(s: State, t: nat) returns (u: State)
    requires Inv(s) && s.consumer.CCopying? && s.consumer.out == [] && t <= s.consumer.n
    ensures Reaches(s, u) && Inv(u)
    ensures u == s.(consumer := u.consumer)
    ensures u.consumer.CCopying? && u.consumer.n == s.consumer.n && u.consumer.peek == s.consumer.peek
    ensures |u.consumer.out| == t
    decreases t
  {
    if t == 0 {
      u := s;
      ReachesSelf(s);
    } else {
      var m := CopyRun(s, t - 1);
      ReachesThen(s, m, CopyByte);
      u := Apply(m, CopyByte);
    }
  }

  /** The state after the consumer took n bytes. */
  function Consumed(s: State, n: nat): State
    requires s.ccur + n <= |s.written|
  {
    s.(ccur := s.ccur + n, delivered := s.written[..s.ccur + n])
  }

  lemma ReadIsRun(s: State, pl: nat)
    requires Idle(s) && s.ccur < s.pcur
    ensures 0 <= ReadCount(s, s.pcur, pl) <= s.pcur - s.ccur
    ensures Reaches(s, Consumed(s, ReadCount(s, s.pcur, pl))) && Idle(Consumed(s, ReadCount(s, s.pcur, pl)))
  {
    ReadCountInRange(s, s.pcur, pl);
    var n := ReadCount(s, s.pcur, pl);
    ReachesSelf(s);
    ReachesThen(s, s, LoadProducer);
    var a := Apply(s, LoadProducer);
    ReachesThen(s, a, StartRead(pl));
    var b := Apply(a, StartRead(pl));
    var c := CopyRun(b, n);
    ReachesTransitive(s, b, c);
    ReachesThen(s, c, FinishRead);
    assert Apply(c, FinishRead) == Consumed(s, n);
  }

  lemma ViewRun(s: State, n: nat) returns (u: State)
    requires Idle(s) && n <= s.size && s.ccur + n <= s.pcur
    ensures Reaches(s, u) && Inv(u)
    ensures u == s.(consumer := u.consumer)
    ensures (u.consumer.CLive? || u.consumer.CCopied?) && |ViewBytes(u)| == n
  {
    ReachesSelf(s);
    ReachesThen(s, s, LoadProducer);
    var a := Apply(s, LoadProducer);
    ReachesThen(s, a, ViewWait(n));
    u := Apply(a, ViewWait(n));
    if u.consumer.CCopying? {
      var c := CopyRun(u, n);
      ReachesTransitive(s, u, c);
      ReachesThen(s, c, FinishPeek);
      u := Apply(c, FinishPeek);
    }
  }

  lemma CommitIsRun(s: State, n: nat)
    requires Idle(s) && n <= s.size && s.ccur + n <= s.pcur
    ensures Reaches(s, Consumed(s, n)) && Idle(Consumed(s, n))
  {
    var v := ViewRun(s, n);
    CommitNeverRefused(v, n);
    ReachesThen(s, v, Commit(n));
    var c := Apply(v, Commit(n));
    assert c == Consumed(s, n);
  }
}
