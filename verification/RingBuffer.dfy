/**
 The byte ring of service/buffer.go as an object. Each method runs one call with the
 other side at rest; a call that would wait returns Blocked and leaves the ring as it was.
 Every call's effect is shown to be a run of the step system in RingProtocol, where the
 two sides interleave freely.
 */
module RingBuffer {
  import opened Bits
  import opened Bytes
  import opened Prelude
  import opened RingProtocol
  import opened RingRuns

  const DEFAULT_BUFFER_SIZE: nat := 262144
  const DEFAULT_READ_BLOCK_SIZE: nat := 8192
  const DEFAULT_WRITE_BLOCK_SIZE: nat := 8192

  datatype Reservation = Granted(start: nat) | NoSpace | ClosedForWrite

  /** A slice handed out by a peek: part of the ring itself, or of the tmp slice. */
  datatype View = Live(lo: nat, hi: nat) | Tmp(len: nat)

  datatype ReadError = EOF | Blocked | BufferFull | NegativeCount | InsufficientData

  datatype ReadResult = Data(bytes: seq<byte>) | ReadFailed(error: ReadError)

  datatype ViewResult = Shown(view: View, short: bool) | ViewFailed(error: ReadError)

  /** What a reader gives to one Read: bytes, and whether it fails with them. A reader that has more
      bytes than it was given room for keeps the rest; at its end it fails without bytes. */
  datatype Answer = Answer(bytes: seq<byte>, failed: bool)

  /** All that the reader gives until it fails. */
  function Input(reader: seq<Answer>): seq<byte> {
    if reader == [] then [] else reader[0].bytes + (if reader[0].failed then [] else Input(reader[1..]))
  }

  /** What the reader goes on with after n bytes of its first answer. */
  function Rest(reader: seq<Answer>, n: nat): seq<Answer>
    requires reader != [] && n <= |reader[0].bytes|
  {
    if n < |reader[0].bytes| then [reader[0].(bytes := reader[0].bytes[n..])] + reader[1..]
    else if reader[0].failed then []
    else reader[1..]
  }

  function Weight(reader: seq<Answer>): nat {
    if reader == [] then 0 else 1 + |reader[0].bytes| + Weight(reader[1..])
  }

  datatype WriteView = WriteSlice(lo: nat, hi: nat, wrap: bool) | WriteFailed(closed: bool)

  /** copy(dst[start:], src[i:]) */
  method Copy(dst: array<byte>, start: nat, src: seq<byte>, i: nat) returns (l: nat)
    requires start <= dst.Length && i <= |src|
    modifies dst
    ensures l == Min(dst.Length - start, |src| - i)
    ensures dst[..] == old(dst[..start]) + src[i..i + l] + old(dst[start + l..])
  {
    l := Min(dst.Length - start, |src| - i);
    forall k | start <= k < start + l {
      dst[k] := src[i + (k - start)];
    }
  }

  /** Where offset j from `start` lands in a ring of length n. */
  function Wrap(n: nat, start: nat, j: nat): int {
    if start + j < n then start + j else start + j - n
  }

  /** Slot k is one of the i slots from start on. */
  predicate Inside(n: nat, start: nat, i: nat, k: nat) {
    start <= k < start + i || k + n < start + i
  }

  method RingCopy(dst: array<byte>, src: seq<byte>, start0: nat) returns (total: nat)
    requires start0 < dst.Length && |src| <= dst.Length
    modifies dst
    ensures total == |src|
    ensures forall j: nat | j < |src| :: dst[Wrap(dst.Length, start0, j)] == src[j]
    ensures forall k: nat | k < dst.Length && !Inside(dst.Length, start0, |src|, k) :: dst[k] == old(dst[k])
  {
    var start := start0;
    var n := |src|;
    var i, l := 0, 0;
    while n > 0
      invariant i + n == |src| && 0 <= i && 0 <= n
      invariant n > 0 ==> (i == 0 && start == start0) || (start == 0 && i == dst.Length - start0)
      invariant forall j: nat | j < i :: dst[Wrap(dst.Length, start0, j)] == src[j]
      invariant forall k: nat | k < dst.Length && !Inside(dst.Length, start0, i, k) :: dst[k] == old(dst[k])
    {
      ghost var before, i0 := dst[..], i;
      l := Copy(dst, start, src, i);
      i := i + l;
      n := n - l;
      ghost var after := dst[..];
      forall j: nat | j < i
        ensures dst[Wrap(dst.Length, start0, j)] == src[j]
      {
        var w := Wrap(dst.Length, start0, j);
        assert dst[w] == after[w];
        if j < i0 { assert after[w] == before[w]; } else { assert w == start + (j - i0); }
      }
      forall k: nat | k < dst.Length && !Inside(dst.Length, start0, i, k)
        ensures dst[k] == old(dst[k])
      {
        assert dst[k] == after[k] == before[k];
      }
      if n > 0 {
        start := 0;
      }
    }
    total := i;
  }

  /** Positions counted from `a` wrap exactly as offsets from its slot do. */
  lemma SlotWraps(size: nat, a: nat, j: nat)
    requires IsPow2(size) && j < size
    ensures Slot(size, a + j) == Wrap(size, Slot(size, a), j)
  {
    if Slot(size, a) + j < size {
      SlotAfter(size, a, j);
    } else {
      SlotIsMod(size, a);
      SlotIsMod(size, a + j);
      ModWrap(a, j, size);
    }
  }

  lemma RingCopyStores(buf: seq<byte>, buf': seq<byte>, pos: nat, p: seq<byte>)
    requires IsPow2(|buf|) && |buf'| == |buf| && |p| <= |buf|
    requires forall j: nat | j < |p| :: buf'[Wrap(|buf|, Slot(|buf|, pos), j)] == p[j]
    requires forall k: nat | k < |buf| && !Inside(|buf|, Slot(|buf|, pos), |p|, k) :: buf'[k] == buf[k]
    ensures Stored(buf, buf', pos, p)
  {
    forall j: nat | pos <= j < pos + |p|
      ensures buf'[Slot(|buf|, j)] == p[j - pos]
    {
      SlotWraps(|buf|, pos, j - pos);
    }
    forall i: nat | i < |buf| && (forall j: nat | pos <= j < pos + |p| :: Slot(|buf|, j) != i)
      ensures buf'[i] == buf[i]
    {
      var start := Slot(|buf|, pos);
      if Inside(|buf|, start, |p|, i) {
        var j := if i >= start then i - start else i + |buf| - start;
        SlotWraps(|buf|, pos, j);
        assert false;
      }
    }
  }

  /** Slots that do not wrap are a plain slice. */
  lemma SliceIsSlots(buf: seq<byte>, pos: nat, n: nat)
    requires IsPow2(|buf|) && Slot(|buf|, pos) + n <= |buf|
    ensures SlotBytes(buf, pos, n) == buf[Slot(|buf|, pos)..Slot(|buf|, pos) + n]
  {
    var r := SlotBytes(buf, pos, n);
    var w := buf[Slot(|buf|, pos)..Slot(|buf|, pos) + n];
    forall j: nat | j < n
      ensures r[j] == w[j]
    {
      SlotAfter(|buf|, pos, j);
    }
  }

  /** Slots that wrap are the end of the ring followed by its beginning. */
  lemma WrappedIsSlots(buf: seq<byte>, pos: nat, n: nat)
    requires IsPow2(|buf|) && |buf| < Slot(|buf|, pos) + n && n <= |buf|
    ensures SlotBytes(buf, pos, n) == buf[Slot(|buf|, pos)..] + buf[..n - (|buf| - Slot(|buf|, pos))]
  {
    var lo := Slot(|buf|, pos);
    var w := buf[lo..] + buf[..n - (|buf| - lo)];
    var r := SlotBytes(buf, pos, n);
    forall j: nat | j < n
      ensures r[j] == w[j]
    {
      SlotWraps(|buf|, pos, j);
    }
  }

  class Buffer {
    const size: nat
    const mask: nat
    const buf: array<byte>
    var tmp: seq<byte>
    var pcur: nat
    var gate: nat
    var ccur: nat
    var done: bool
    ghost var written: seq<byte>  // everything ever committed by the producer

    ghost function Snapshot(): State
      reads this, buf
    {
      State(size, buf[..], pcur, gate, ccur, PIdle, CIdle,
            written, if ccur <= |written| then written[..ccur] else [])
    }

    ghost predicate Valid()
      reads this, buf
    {
      mask == size - 1 && Inv(Snapshot())
    }

    /** The bytes committed by the producer and not yet by the consumer, in order. */
    ghost function Unread(): (u: seq<byte>)
      requires Valid()
      reads this, buf
      ensures |u| == pcur - ccur
    {
      written[ccur..]
    }

    constructor (n: nat)
      requires IsPow2(n)
      ensures Valid() && fresh(buf) && size == n && !done
      ensures pcur == 0 && gate == 0 && ccur == 0 && written == []
      ensures Init(Snapshot())
    {
      size, mask := n, n - 1;
      buf := new byte[n](_ => 0);
      tmp := [];
      pcur, gate, ccur := 0, 0, 0;
      done := false;
      written := [];
    }

    /** newBuffer: which sizes are refused. */
    static method New(n: int) returns (b: Buffer?)
      ensures b != null <==> n == 0 || (n >= 2 * DEFAULT_READ_BLOCK_SIZE && IsPow2(n))
      ensures b != null ==> b.Valid() && fresh(b) && fresh(b.buf) && !b.done && b.written == []
      ensures b != null ==> b.size == if n == 0 then DEFAULT_BUFFER_SIZE else n
    {
      var sz := n;
      if sz < 0 {
        return null;
      }
      if sz == 0 {
        sz := DEFAULT_BUFFER_SIZE;
        DefaultSizeIsPow2();
      }
      PowerOfTwoExact(sz);
      if !PowerOfTwo64(sz) {
        return null;
      }
      if sz < 2 * DEFAULT_READ_BLOCK_SIZE {
        return null;
      }
      b := new Buffer(sz);
    }

    static lemma DefaultSizeIsPow2()
      ensures IsPow2(DEFAULT_BUFFER_SIZE)
    {
      assert Pow2(9) == 512;
      assert Pow2(18) == 262144;
    }

    method Close()
      modifies this`done
      ensures done
    {
      done := true;
    }

    // ----------------------------------------------------------------
    // Producer side
    // ----------------------------------------------------------------

    method WaitForWriteSpace(n: nat) returns (r: Reservation)
      requires Valid()
      modifies this`gate
      ensures Valid()
      ensures r.ClosedForWrite? <==> done
      ensures r.NoSpace? <==> !done && |Unread()| + n > size
      ensures r.Granted? ==> r.start == pcur && pcur + n <= gate + size
      ensures gate == if !done && GateRefuses(old(Snapshot()), n) && !r.NoSpace? then ccur else old(gate)
      ensures Reaches(old(Snapshot()), Snapshot())
    {
      hide Reaches, InvUnread, InvProducer, InvConsumer;
      ghost var s := Snapshot();
      ReachesSelf(s);
      if done {
        return ClosedForWrite;
      }
      var next := pcur + n;
      var wrap: int := next - size;
      if wrap > gate || gate > pcur {
        if wrap > ccur {
          return NoSpace;
        }
        gate := ccur;
        assert Snapshot() == s.(gate := ccur);
      }
      ReserveQuitRun(s, n);
      ReachesKeepsInv(s, Snapshot());
      return Granted(pcur);
    }

    /** The copy into the ring at a producer position. */
    method StoreAt(start: nat, p: seq<byte>) returns (total: nat)
      requires IsPow2(size) && buf.Length == size && mask == size - 1 && |p| <= size
      modifies buf
      ensures total == |p|
      ensures Stored(old(buf[..]), buf[..], start, p)
    {
      SlotIsMod(size, start);
      total := RingCopy(buf, p, And(start, mask));
      RingCopyStores(old(buf[..]), buf[..], start, p);
    }

    /** Appends the whole of p to the stream, or nothing. */
    method Write(p: seq<byte>) returns (total: nat, r: Reservation)
      requires Valid()
      modifies this, buf
      ensures Valid() && tmp == old(tmp) && ccur == old(ccur) && done == old(done)
      ensures r.ClosedForWrite? <==> old(done)
      ensures r.NoSpace? <==> !old(done) && |old(Unread())| + |p| > size
      ensures r.Granted? ==> total == |p| && Unread() == old(Unread()) + p && written == old(written) + p
      ensures !r.Granted? ==> total == 0 && Snapshot() == old(Snapshot())
      ensures Reaches(old(Snapshot()), Snapshot())
    {
      hide Stored, InvUnread, InvProducer, InvConsumer, Slot, Reaches;
      ghost var s := Snapshot();
      ReachesSelf(s);
      if done {
        return 0, ClosedForWrite;
      }
      r := WaitForWriteSpace(|p|);
      if !r.Granted? {
        assert Snapshot() == s;
        return 0, r;
      }
      total := StoreAt(r.start, p);
      Publish(|p|, p, s);
    }

    /** Moves the producer cursor past the n bytes p, which are in their slots. */
    method Publish(n: nat, ghost p: seq<byte>, ghost s: State)
      requires mask == size - 1 && n == |p| && Idle(s) && s.pcur + n <= s.ccur + s.size
      requires Snapshot() == s.(buf := buf[..], gate := if GateRefuses(s, |p|) then s.ccur else s.gate)
      requires Stored(s.buf, buf[..], s.pcur, p)
      modifies this`pcur, this`written
      ensures Valid() && written == s.written + p && Unread() == s.written[s.ccur..] + p
      ensures pcur == s.pcur + |p|
      ensures Reaches(s, Snapshot())
    {
      hide Stored, InvUnread, Slot, Reaches;
      pcur := pcur + n;
      written := written + p;
      assert written[..ccur] == s.written[..ccur];
      assert Written(s, Snapshot(), p);
      WriteOutcome(s, Snapshot(), p);
    }

    /** A slice of the free space to encode into, and whether the n bytes would wrap. */
    method WriteWait(n: nat) returns (v: WriteView)
      requires Valid()
      modifies this`gate
      ensures Valid()
      ensures v.WriteFailed? <==> done || |Unread()| + n > size
      ensures v.WriteFailed? ==> v.closed == done
      ensures v.WriteSlice? ==>
                && v.lo == Slot(size, pcur) && pcur + n <= gate + size
                && v.wrap == (v.lo + n > size) && v.hi == (if v.wrap then size else v.lo + n)
      ensures Reaches(old(Snapshot()), Snapshot())
    {
      hide Reaches, InvUnread, InvProducer, InvConsumer;
      var r := WaitForWriteSpace(n);
      if !r.Granted? {
        return WriteFailed(r.ClosedForWrite?);
      }
      SlotIsMod(size, r.start);
      var pstart := And(r.start, mask);
      if pstart + n > size {
        return WriteSlice(pstart, size, true);
      }
      return WriteSlice(pstart, pstart + n, false);
    }

    /** A client's store into the slice it got from WriteWait: nothing becomes readable. */
    method Put(lo: nat, bytes: seq<byte>)
      requires Valid() && lo == Slot(size, pcur) && lo + |bytes| <= size && pcur + |bytes| <= gate + size
      modifies buf
      ensures Valid() && Unread() == old(Unread())
      ensures SlotBytes(buf[..], pcur, |bytes|) == bytes
      ensures Reaches(old(Snapshot()), Snapshot())
    {
      ghost var s := Snapshot();
      var l := Copy(buf, lo, bytes, 0);
      PutStores(s, buf[..], bytes);
      assert Snapshot() == s.(buf := buf[..]);
      PutIsRun(s, Snapshot(), bytes);
      StoredSlotBytes(s.buf, buf[..], s.pcur, bytes);
    }

    /** Whatever is written into the reserved slots, and nowhere else, is a run of stores. */
    static lemma OverwriteIsRun(s: State, t: State, lo: nat, n: nat, k: nat)
      requires Idle(s) && lo == Slot(s.size, s.pcur) && lo + n <= s.size && s.pcur + n <= s.gate + s.size && k <= n
      requires t == s.(buf := t.buf) && |t.buf| == |s.buf|
      requires forall i | 0 <= i < |s.buf| && !(lo <= i < lo + n) :: t.buf[i] == s.buf[i]
      ensures Reaches(s, t) && Inv(t) && IsPow2(|t.buf|)
      ensures SlotBytes(t.buf, s.pcur, k) == t.buf[lo..lo + k]
    {
      hide InvUnread, InvProducer, InvConsumer, Reaches, Stored, Slot, SlotBytes;
      var bytes := t.buf[lo..lo + n];
      assert t.buf == s.buf[..lo] + bytes[0..0 + |bytes|] + s.buf[lo + |bytes|..];
      PutStores(s, t.buf, bytes);
      PutIsRun(s, t, bytes);
      SliceIsSlots(t.buf, s.pcur, k);
    }

    static lemma PutStores(s: State, buf': seq<byte>, bytes: seq<byte>)
      requires Inv(s) && Slot(s.size, s.pcur) + |bytes| <= s.size
      requires var lo := Slot(s.size, s.pcur);
               buf' == s.buf[..lo] + bytes[0..0 + |bytes|] + s.buf[lo + |bytes|..]
      ensures Stored(s.buf, buf', s.pcur, bytes)
    {
      hide InvUnread, InvProducer, InvConsumer;
      var lo := Slot(s.size, s.pcur);
      forall j: nat | j < |bytes|
        ensures buf'[Wrap(s.size, lo, j)] == bytes[j]
      {
      }
      RingCopyStores(s.buf, buf', s.pcur, bytes);
    }

    /** Makes the next n slots readable as they are. */
    method WriteCommit(n: nat) returns (cnt: nat, r: Reservation)
      requires Valid()
      modifies this
      ensures Valid() && tmp == old(tmp) && ccur == old(ccur) && done == old(done)
      ensures r.ClosedForWrite? <==> old(done)
      ensures r.NoSpace? <==> !old(done) && |old(Unread())| + n > size
      ensures r.Granted? ==>
                && cnt == n
                && Unread() == old(Unread()) + SlotBytes(buf[..], old(pcur), n)
                && written == old(written) + SlotBytes(buf[..], old(pcur), n)
      ensures !r.Granted? ==> cnt == 0 && Snapshot() == old(Snapshot())
      ensures Reaches(old(Snapshot()), Snapshot())
    {
      hide Stored, InvUnread, InvProducer, InvConsumer, Slot, SlotBytes, Reaches;
      ghost var s := Snapshot();
      ReachesSelf(s);
      r := WaitForWriteSpace(n);
      assert buf[..] == s.buf;
      if !r.Granted? {
        assert Snapshot() == s;
        return 0, r;
      }
      cnt := n;
      ghost var p := SlotBytes(s.buf, s.pcur, n);
      SlotBytesStored(s.buf, s.pcur, n);
      Publish(n, p, s);
    }

    /** One in-place block: the bytes are stored in the granted slice and committed. */
    method WriteBlock(lo: nat, block: seq<byte>)
      requires Valid() && !done && lo == Slot(size, pcur) && lo + |block| <= size && pcur + |block| <= gate + size
      modifies this, buf
      ensures Valid() && tmp == old(tmp) && ccur == old(ccur) && done == old(done)
      ensures Unread() == old(Unread()) + block && written == old(written) + block
      ensures Reaches(old(Snapshot()), Snapshot())
    {
      hide Reaches, InvUnread, InvProducer, InvConsumer, Slot, SlotBytes;
      ghost var s := Snapshot();
      Put(lo, block);
      ghost var t := Snapshot();
      var _, r := WriteCommit(|block|);
      ReachesTransitive(s, t, Snapshot());
    }

    /** One read of a block that does not wrap: the reader fills as much of it as it has bytes for. */
    method ReadOnce(bytes: seq<byte>) returns (n: nat, suspended: bool)
      requires Valid() && !done
      modifies this, buf
      ensures Valid() && tmp == old(tmp) && ccur == old(ccur) && done == old(done)
      ensures n <= |bytes| && Unread() == old(Unread()) + bytes[..n] && written == old(written) + bytes[..n]
      ensures suspended ==> |Unread()| + DEFAULT_READ_BLOCK_SIZE > size && n == 0
      ensures n == 0 ==> suspended || bytes == []
      ensures Reaches(old(Snapshot()), Snapshot())
    {
      hide Reaches, InvUnread, InvProducer, InvConsumer, Slot, GateRefuses;
      ghost var s := Snapshot();
      var v := WriteWait(DEFAULT_READ_BLOCK_SIZE);
      if v.WriteFailed? || bytes == [] {
        return 0, v.WriteFailed?;
      }
      ghost var t := Snapshot();
      n := Min(|bytes|, v.hi - v.lo);
      WriteBlock(v.lo, bytes[..n]);
      ReachesTransitive(s, t, Snapshot());
      suspended := false;
    }

    /** ReadFrom while its reader still has these bytes to give, up to where it waits for more. */
    method Feed(bytes: seq<byte>) returns (n: nat, suspended: bool)
      requires Valid() && !done
      modifies this, buf
      ensures Valid() && tmp == old(tmp) && ccur == old(ccur) && done == old(done)
      ensures n <= |bytes| && Unread() == old(Unread()) + bytes[..n] && written == old(written) + bytes[..n]
      ensures !suspended ==> n == |bytes|
      ensures suspended ==> |Unread()| + DEFAULT_READ_BLOCK_SIZE > size
      ensures Reaches(old(Snapshot()), Snapshot())
    {
      hide Reaches, Inv;
      n, suspended := 0, false;
      ghost var s := Snapshot();
      ReachesSelf(s);
      while n < |bytes|
        invariant Valid() && tmp == old(tmp) && ccur == old(ccur) && done == old(done)
        invariant n <= |bytes| && Unread() == old(Unread()) + bytes[..n] && written == old(written) + bytes[..n]
        invariant Reaches(s, Snapshot())
      {
        ghost var t := Snapshot();
        var k, full := ReadOnce(bytes[n..]);
        ReachesTransitive(s, t, Snapshot());
        if full {
          return n, true;
        }
        assert bytes[..n + k] == bytes[..n] + bytes[n..][..k];
        n := n + k;
      }
    }

    /** Feeds what a reader gives into the ring in blocks that never wrap. A full ring suspends the
        call; otherwise it ends when the reader fails, and closes the ring. */
    method ReadFrom(reader: seq<Answer>) returns (total: nat, suspended: bool)
      requires Valid()
      modifies this, buf
      ensures Valid() && ccur == old(ccur) && tmp == old(tmp)
      ensures total <= |Input(reader)| && written == old(written) + Input(reader)[..total]
      ensures Unread() == old(Unread()) + Input(reader)[..total]
      ensures Reaches(old(Snapshot()), Snapshot())
      ensures !suspended ==> done && total == if old(done) then 0 else |Input(reader)|
      ensures suspended ==> |Unread()| + DEFAULT_READ_BLOCK_SIZE > size && done == old(done)
    {
      hide Reaches, Inv, Input, Weight, Rest;
      total, suspended := 0, false;
      ghost var s, input := Snapshot(), Input(reader);
      ReachesSelf(s);
      var left := reader;
      NothingLeft();
      while !done
        invariant Valid() && ccur == old(ccur) && tmp == old(tmp)
        invariant total <= |input| && Input(left) == input[total..]
        invariant written == old(written) + input[..total] && Unread() == old(Unread()) + input[..total]
        invariant Reaches(s, Snapshot())
        invariant done ==> total == if old(done) then 0 else |input|
        invariant !done ==> done == old(done)
        decreases !done, Weight(left)
      {
        ghost var t := Snapshot();
        if left == [] {
          Close();
        } else {
          var n;
          n, suspended := ReadOnce(left[0].bytes);
          ReachesTransitive(s, t, Snapshot());
          if suspended {
            return;
          }
          Taken(input, total, left, n);
          total, left := total + n, Rest(left, n);
        }
      }
    }

    static lemma Taken(input: seq<byte>, total: nat, left: seq<Answer>, n: nat)
      requires total <= |input| && left != [] && Input(left) == input[total..] && n <= |left[0].bytes|
      ensures total + n <= |input| && input[..total + n] == input[..total] + left[0].bytes[..n]
      ensures Input(Rest(left, n)) == input[total + n..]
      ensures n > 0 || left[0].bytes == [] ==> Weight(Rest(left, n)) < Weight(left)
    {
      hide Input, Rest, Weight;
      RestInput(left, n);
      RestWeight(left, n);
      assert input[total..][..n] == left[0].bytes[..n];
      assert input[total + n..] == input[total..][n..];
    }

    static lemma RestInput(left: seq<Answer>, n: nat)
      requires left != [] && n <= |left[0].bytes|
      ensures Input(left) == left[0].bytes[..n] + Input(Rest(left, n))
    {
      hide Input;
      var a := left[0];
      InputStep(left);
      NothingLeft();
      if n < |a.bytes| {
        var left' := [a.(bytes := a.bytes[n..])] + left[1..];
        assert left'[1..] == left[1..];
        InputStep(left');
        Joined(a.bytes, n, if a.failed then [] else Input(left[1..]));
      }
    }

    static lemma InputStep(left: seq<Answer>)
      requires left != []
      ensures Input(left) == left[0].bytes + (if left[0].failed then [] else Input(left[1..]))
    {
    }

    static lemma Joined(b: seq<byte>, n: nat, rest: seq<byte>)
      requires n <= |b|
      ensures b + rest == b[..n] + (b[n..] + rest)
    {
    }

    static lemma RestWeight(left: seq<Answer>, n: nat)
      requires left != [] && n <= |left[0].bytes|
      ensures n > 0 || left[0].bytes == [] ==> Weight(Rest(left, n)) < Weight(left)
    {
      var a := left[0];
      assert ([a.(bytes := a.bytes[n..])] + left[1..])[1..] == left[1..];
    }

    static lemma NothingLeft()
      ensures Input([]) == []
    {
    }

    // ----------------------------------------------------------------
    // Consumer side
    // ----------------------------------------------------------------

    /** Moves the consumer cursor n bytes on. */
    method Advance(n: nat)
      requires Valid() && n <= |Unread()|
      requires Reaches(Snapshot(), Consumed(Snapshot(), n)) && Idle(Consumed(Snapshot(), n))
      modifies this`ccur
      ensures Valid() && Unread() == old(Unread())[n..] && ccur == old(ccur) + n
      ensures Reaches(old(Snapshot()), Snapshot())
    {
      ghost var s := Snapshot();
      ccur := ccur + n;
      assert Snapshot() == Consumed(s, n);
    }

    /** How many bytes a Read into pl bytes copies. */
    method ReadSize(pl: nat) returns (n: nat)
      requires Valid() && ccur < pcur
      ensures n == ReadCount(Snapshot(), pcur, pl) == Min(Min(pl, |Unread()|), size - Slot(size, ccur))
    {
      hide InvUnread, InvProducer, InvConsumer;
      SlotIsMod(size, ccur);
      var cpos, ppos := ccur, pcur;
      var cindex := And(cpos, mask);
      var b := ppos - cpos;
      if cpos + pl < ppos {
        n := Min(pl, size - cindex);
      } else if cindex + b < size {
        n := Min(pl, b);
      } else {
        n := Min(pl, size - cindex);
      }
    }

    /** Takes up to pl bytes off the front of the stream, stopping at the end of the ring. */
    method Read(pl: nat) returns (r: ReadResult)
      requires Valid()
      modifies this`ccur
      ensures Valid()
      ensures r.Data? ==>
                && |r.bytes| == Min(Min(pl, |old(Unread())|), size - Slot(size, old(ccur)))
                && r.bytes + Unread() == old(Unread())
      ensures r.Data? <==> old(Unread()) != []
      ensures r.ReadFailed? ==> r.error == (if done then EOF else Blocked) && ccur == old(ccur)
      ensures Reaches(old(Snapshot()), Snapshot())
    {
      hide Reaches, Inv, Slot, ReadCount, And, Min;
      ghost var s := Snapshot();
      ReachesSelf(s);
      if ccur >= pcur {
        return ReadFailed(if done then EOF else Blocked);
      }
      var n := ReadSize(pl);
      ReadEffect(s, pl);
      var cindex := And(ccur, mask);
      r := Data(buf[cindex..cindex + n]);
      Advance(n);
    }

    /** What Read copies out is the front of the stream, and consuming it is a run. */
    static lemma ReadEffect(s: State, pl: nat)
      requires Idle(s) && s.ccur < s.pcur
      ensures var n := ReadCount(s, s.pcur, pl);
              && 0 <= n <= s.pcur - s.ccur
              && Reaches(s, Consumed(s, n)) && Idle(Consumed(s, n))
              && And(s.ccur, s.size - 1) == Slot(s.size, s.ccur)
              && Slot(s.size, s.ccur) + n <= |s.buf|
              && s.buf[Slot(s.size, s.ccur)..Slot(s.size, s.ccur) + n] == s.written[s.ccur..][..n]
    {
      hide Reaches, InvUnread, InvProducer, InvConsumer, And;
      ReadIsRun(s, pl);
      ReadCountInRange(s, s.pcur, pl);
      FrontOfStream(s, ReadCount(s, s.pcur, pl));
    }

    static lemma FrontOfStream(s: State, n: nat)
      requires Inv(s) && s.ccur + n <= s.pcur && Slot(s.size, s.ccur) + n <= s.size
      ensures s.buf[Slot(s.size, s.ccur)..Slot(s.size, s.ccur) + n] == s.written[s.ccur..][..n]
    {
      UnreadSlots(s, n);
      SliceIsSlots(s.buf, s.ccur, n);
      assert s.written[s.ccur..][..n] == s.written[s.ccur..s.ccur + n];
    }

    static lemma FrontWrapped(s: State, n: nat)
      requires Inv(s) && s.ccur + n <= s.pcur && n <= s.size && s.size < Slot(s.size, s.ccur) + n
      ensures s.buf[Slot(s.size, s.ccur)..] + s.buf[..n - (s.size - Slot(s.size, s.ccur))] == s.written[s.ccur..][..n]
    {
      UnreadSlots(s, n);
      WrappedIsSlots(s.buf, s.ccur, n);
      assert s.written[s.ccur..][..n] == s.written[s.ccur..s.ccur + n];
    }

    /** What a view reads as at this moment. */
    ghost function ViewOfRing(v: View): seq<byte>
      reads this, buf
    {
      match v
      case Live(lo, hi) => if lo <= hi <= buf.Length then buf[lo..hi] else []
      case Tmp(len) => if len <= |tmp| then tmp[..len] else []
    }

    /** Reading a view. */
    method Contents(v: View) returns (bytes: seq<byte>)
      ensures bytes == ViewOfRing(v)
    {
      match v {
        case Live(lo, hi) =>
          if lo <= hi <= buf.Length {
            return buf[lo..hi];
          }
        case Tmp(len) =>
          if len <= |tmp| {
            return tmp[..len];
          }
      }
      return [];
    }

    /** The slice for m available bytes, assembled in tmp when it wraps. */
    method MakeView(m: nat) returns (v: View)
      requires Valid() && m <= |Unread()| && m <= size
      modifies this`tmp
      ensures Valid()
      ensures ViewOfRing(v) == Unread()[..m]
      ensures v.Live? <==> Slot(size, ccur) + m <= size
    {
      hide InvUnread, InvProducer, InvConsumer;
      SlotIsMod(size, ccur);
      var cindex := And(ccur, mask);
      if cindex + m > size {
        FrontWrapped(Snapshot(), m);
        tmp := buf[cindex..] + buf[..m - (size - cindex)];
        return Tmp(m);
      }
      FrontOfStream(Snapshot(), m);
      return Live(cindex, cindex + m);
    }

    /** Waits for n bytes and shows them without taking them. */
    method ReadWait(n: int) returns (r: ViewResult)
      requires Valid()
      modifies this`tmp
      ensures Valid() && Snapshot() == old(Snapshot())
      ensures r.Shown? <==> 0 <= n <= size && n <= |Unread()|
      ensures r.Shown? ==> !r.short && ViewOfRing(r.view) == Unread()[..n]
      ensures r.ViewFailed? ==>
                r.error == if n > size then BufferFull else if n < 0 then NegativeCount
                           else if done then EOF else Blocked
    {
      if n > size {
        return ViewFailed(BufferFull);
      }
      if n < 0 {
        return ViewFailed(NegativeCount);
      }
      var next := ccur + n;
      if next > pcur {
        return ViewFailed(if done then EOF else Blocked);
      }
      var v := MakeView(n);
      return Shown(v, false);
    }

    /** Shows up to n bytes, whatever is there, without taking them. */
    method ReadPeek(n: int) returns (r: ViewResult)
      requires Valid()
      modifies this`tmp
      ensures Valid() && Snapshot() == old(Snapshot())
      ensures r.Shown? <==> 0 <= n <= size && Unread() != []
      ensures r.Shown? ==>
                && r.short == (|Unread()| < n)
                && ViewOfRing(r.view) == Unread()[..Min(n, |Unread()|)]
      ensures r.ViewFailed? ==>
                r.error == if n > size then BufferFull else if n < 0 then NegativeCount
                           else if done then EOF else Blocked
    {
      if n > size {
        return ViewFailed(BufferFull);
      }
      if n < 0 {
        return ViewFailed(NegativeCount);
      }
      if ccur >= pcur {
        return ViewFailed(if done then EOF else Blocked);
      }
      var m := pcur - ccur;
      var short := false;
      if m >= n {
        m := n;
      } else {
        short := true;
      }
      var v := MakeView(m);
      return Shown(v, short);
    }

    /** Takes exactly n bytes off the stream, or none. */
    method ReadCommit(n: int) returns (cnt: nat, error: ReadError)
      requires Valid()
      modifies this`ccur
      ensures Valid()
      ensures 0 <= n <= size && n <= |old(Unread())| ==> cnt == n && Unread() == old(Unread())[n..]
      ensures !(0 <= n <= size && n <= |old(Unread())|) ==>
                && cnt == 0 && ccur == old(ccur)
                && error == if n > size then BufferFull else if n < 0 then NegativeCount else InsufficientData
      ensures Reaches(old(Snapshot()), Snapshot())
    {
      ghost var s := Snapshot();
      ReachesSelf(s);
      if n > size {
        return 0, BufferFull;
      }
      if n < 0 {
        return 0, NegativeCount;
      }
      if ccur + n <= pcur {
        CommitIsRun(s, n);
        Advance(n);
        return n, InsufficientData;
      }
      return 0, InsufficientData;
    }

    /** The next block for a writer: what is there, up to the block size, if the ring can show that much. */
    method PeekBlock() returns (p: seq<byte>)
      requires Valid()
      modifies this`tmp
      ensures Valid() && Snapshot() == old(Snapshot()) && Unread() == old(Unread())
      ensures p <= Unread()
      ensures p == [] <==> size < DEFAULT_WRITE_BLOCK_SIZE || Unread() == []
      ensures |p| <= size
    {
      hide Inv;
      var r := ReadPeek(DEFAULT_WRITE_BLOCK_SIZE);
      if r.ViewFailed? {
        return [];
      }
      p := Contents(r.view);
    }

    /** Commits a block that the writer has taken. */
    method PassOn(p: seq<byte>)
      requires Valid() && p <= Unread() && |p| <= size
      modifies this`ccur
      ensures Valid() && p + Unread() == old(Unread())
      ensures Reaches(old(Snapshot()), Snapshot())
    {
      hide Inv, Reaches;
      var _, _ := ReadCommit(|p|);
    }

    /** Passes the stream on to a writer, block by block. The writer takes `fuse` blocks whole and
        then fails after `short` bytes of the next; a block that fails is not committed. Without
        data the call waits, otherwise it ends and closes the ring. */
    method WriteTo(fuse: nat, short: nat) returns (sent: seq<Answer>, waits: bool)
      requires Valid()
      modifies this
      ensures Valid() && written == old(written)
      ensures Input(sent) <= old(Unread()) && |old(Unread())| - |Unread()| <= |Input(sent)|
      ensures waits ==> Input(sent) == old(Unread()) && Unread() == [] && !done
      ensures !waits ==> done
      ensures !old(done) && size >= DEFAULT_WRITE_BLOCK_SIZE && fuse >= |old(Unread())| ==> waits
      ensures Reaches(old(Snapshot()), Snapshot())
    {
      hide Reaches, Inv, Input, NoneFails;
      sent, waits := [], false;
      ghost var s, u := Snapshot(), Unread();
      ReachesSelf(s);
      NothingSent();
      var left := fuse;
      while !done
        invariant Valid() && written == old(written) && !waits
        invariant NoneFails(sent) && Input(sent) + Unread() == u
        invariant Reaches(s, Snapshot())
        invariant done == old(done) && (fuse >= |u| ==> left >= |Unread()|)
        decreases |Unread()|
      {
        ghost var t := Snapshot();
        var p := PeekBlock();
        if p == [] && size >= DEFAULT_WRITE_BLOCK_SIZE {
          return sent, true;
        }
        if p == [] || left == 0 {
          var k := Min(short, |p|);
          AppendAnswer(sent, Answer(p[..k], true), Unread());
          sent := if p == [] then sent else sent + [Answer(p[..k], true)];
          Close();
          return;
        }
        left := left - 1;
        AppendAnswer(sent, Answer(p, false), Unread());
        sent := sent + [Answer(p, false)];
        PassOn(p);
        ReachesTransitive(s, t, Snapshot());
        assert Input(sent) + Unread() == u;
      }
    }

    static lemma NothingSent()
      ensures Input([]) == [] && NoneFails([])
    {
    }

    static lemma AppendAnswer(sent: seq<Answer>, a: Answer, u: seq<byte>)
      requires NoneFails(sent) && a.bytes <= u
      ensures Input(sent + [a]) == Input(sent) + a.bytes && Input(sent) + a.bytes <= Input(sent) + u
      ensures !a.failed ==> NoneFails(sent + [a])
      ensures forall v: seq<byte> | u == a.bytes + v :: Input(sent + [a]) + v == Input(sent) + u
    {
      hide Input;
      InputAppends(sent, a);
      forall v: seq<byte> | u == a.bytes + v
        ensures Input(sent + [a]) + v == Input(sent) + u
      {
        assert Input(sent) + a.bytes + v == Input(sent) + (a.bytes + v);
      }
    }

    static ghost predicate NoneFails(sent: seq<Answer>) {
      forall a | a in sent :: !a.failed
    }

    static lemma {:induction false} InputAppends(sent: seq<Answer>, a: Answer)
      requires NoneFails(sent)
      ensures Input(sent + [a]) == Input(sent) + a.bytes
      decreases |sent|
    {
      hide Input;
      NothingLeft();
      InputStep(sent + [a]);
      if sent == [] {
        assert (sent + [a])[1..] == [];
        assert a.bytes + [] == a.bytes;
      } else {
        InputAppends(sent[1..], a);
        InputStep(sent);
        assert (sent + [a])[1..] == sent[1..] + [a];
        assert sent[0] in sent;
        assert sent[0].bytes + (Input(sent[1..]) + a.bytes) == sent[0].bytes + Input(sent[1..]) + a.bytes;
      }
    }
  }
}
