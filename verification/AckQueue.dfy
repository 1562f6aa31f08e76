/**
 The ack queue as the broker stores it: a growing power-of-two ring of entries and a map
 from packet id to slot. Every method is proved to perform the matching step of AckModel.
 */
module AckQueue {
  import opened AckModel
  import opened Bits
  import opened Bytes
  import opened MessageTypes
  import opened Prelude

  const MAX_INT64: nat := 0x7fff_ffff_ffff_ffff

  /** The slot of the i-th entry of a ring whose oldest entry is at `head`. */
  function At(size: nat, head: nat, i: nat): int {
    if head + i < size then head + i else head + i - size
  }

  lemma IncrementWraps(size: nat, n: nat)
    requires IsPow2(size) && n < size
    ensures And(n + 1, size - 1) == At(size, n, 1)
  {
    var k: nat :| size == Pow2(k);
    MaskIsMod(n + 1, k);
    if n + 1 == size {
      ModUnique(size, size, 1, 0);
    } else {
      ModUnique(n + 1, size, 0, n + 1);
    }
  }

  /** The size of a new queue for n entries. */
  method QueueSize(n: nat) returns (m: nat)
    requires 1 <= n <= Pow2(62)
    ensures IsPow2(m) && n <= m && forall k: nat :: n <= Pow2(k) ==> m <= Pow2(k)
    ensures IsPow2(n) ==> m == n
  {
    hide Pow2;
    PowerOfTwoExact(n);
    m := n;
    if !PowerOfTwo64(n) {
      m := RoundUpPowerOfTwo64(n);
    }
  }

  // ------------------------------------------------------------------
  // Rings and id maps as values
  // ------------------------------------------------------------------

  type Slots = seq<Option<Entry>>

  ghost predicate Occupied(ring: Slots, head: nat, count: nat) {
    && head < |ring| && count <= |ring|
    && forall i: nat | i < count :: ring[At(|ring|, head, i)].Some?
  }

  /** The queued entries, oldest first. */
  ghost function Entries(ring: Slots, head: nat, count: nat): (q: seq<Entry>)
    requires Occupied(ring, head, count)
    ensures |q| == count
  {
    seq(count, i requires 0 <= i < count => ring[At(|ring|, head, i)].value)
  }

  /** The map sends each queued id to its slot and holds nothing else. */
  ghost predicate Indexed(q: seq<Entry>, size: nat, head: nat, emap: map<uint16, nat>) {
    && (forall i: nat | i < |q| :: q[i].pktid in emap && emap[q[i].pktid] == At(size, head, i))
    && (forall id | id in emap :: HasId(q, id))
  }

  lemma IndexedIsDistinct(q: seq<Entry>, size: nat, head: nat, emap: map<uint16, nat>)
    requires Indexed(q, size, head, emap) && |q| <= size && head < size
    ensures DistinctIds(q)
    ensures forall id :: id in emap <==> HasId(q, id)
  {
    forall i, j | 0 <= i < j < |q|
      ensures q[i].pktid != q[j].pktid
    {
      assert At(size, head, i) != At(size, head, j);
    }
  }

  lemma PushBack(ring: Slots, head: nat, count: nat, e: Entry, emap: map<uint16, nat>)
    requires Occupied(ring, head, count) && count < |ring|
    requires Indexed(Entries(ring, head, count), |ring|, head, emap) && e.pktid !in emap
    ensures var tail := At(|ring|, head, count);
            var ring' := ring[tail := Some(e)];
            && Occupied(ring', head, count + 1)
            && Entries(ring', head, count + 1) == Entries(ring, head, count) + [e]
            && Indexed(Entries(ring', head, count + 1), |ring|, head, emap[e.pktid := tail])
  {
    var q, tail := Entries(ring, head, count), At(|ring|, head, count);
    var ring' := ring[tail := Some(e)];
    assert forall i: nat | i < count :: At(|ring|, head, i) != tail;
    var q' := Entries(ring', head, count + 1);
    assert q' == q + [e];
    forall id | id in emap[e.pktid := tail]
      ensures HasId(q', id)
    {
      if id == e.pktid {
        assert q'[count].pktid == id;
      } else {
        var i :| 0 <= i < |q| && q[i].pktid == id;
        assert q'[i].pktid == id;
      }
    }
  }

  lemma PopFront(ring: Slots, head: nat, count: nat, emap: map<uint16, nat>)
    requires Occupied(ring, head, count) && 0 < count
    requires Indexed(Entries(ring, head, count), |ring|, head, emap)
    ensures var q := Entries(ring, head, count);
            var ring' := ring[head := None];
            var head' := At(|ring|, head, 1);
            && Occupied(ring', head', count - 1)
            && Entries(ring', head', count - 1) == q[1..]
            && Indexed(q[1..], |ring|, head', emap - {q[0].pktid})
  {
    var q := Entries(ring, head, count);
    var ring', head' := ring[head := None], At(|ring|, head, 1);
    assert forall i: nat | i < count - 1 :: At(|ring|, head', i) == At(|ring|, head, i + 1) != head;
    assert Entries(ring', head', count - 1) == q[1..];
    IndexedIsDistinct(q, |ring|, head, emap);
    forall id | id in emap - {q[0].pktid}
      ensures HasId(q[1..], id)
    {
      var i :| 0 <= i < |q| && q[i].pktid == id;
      assert q[1..][i - 1].pktid == id;
    }
  }

  lemma UpdateSlot(ring: Slots, head: nat, count: nat, k: nat, e: Entry)
    requires Occupied(ring, head, count) && k < count
    ensures var ring' := ring[At(|ring|, head, k) := Some(e)];
            Occupied(ring', head, count) && Entries(ring', head, count) == Entries(ring, head, count)[k := e]
  {
    assert forall i: nat | i < count && i != k :: At(|ring|, head, i) != At(|ring|, head, k);
  }

  lemma UpdateKeepsIndex(q: seq<Entry>, size: nat, head: nat, emap: map<uint16, nat>, k: nat, e: Entry)
    requires Indexed(q, size, head, emap) && k < |q| && e.pktid == q[k].pktid
    ensures Indexed(q[k := e], size, head, emap)
  {
    var q' := q[k := e];
    forall id | id in emap
      ensures HasId(q', id)
    {
      var j :| 0 <= j < |q| && q[j].pktid == id;
      assert q'[j].pktid == id;
    }
  }

  lemma AckListUpdatesOne(q: seq<Entry>, k: nat, t: MessageType, ackbuf: seq<byte>)
    requires DistinctIds(q) && k < |q|
    ensures AckList(q, t, q[k].pktid, ackbuf) == q[k := q[k].(state := t, ackbuf := ackbuf)]
  {
  }

  lemma AckSlot(ring: Slots, head: nat, count: nat, emap: map<uint16, nat>, t: MessageType, id: uint16,
                ackbuf: seq<byte>)
    requires Occupied(ring, head, count) && id in emap
    requires Indexed(Entries(ring, head, count), |ring|, head, emap)
    ensures emap[id] < |ring| && ring[emap[id]].Some?
    ensures var q := Entries(ring, head, count);
            var ring' := ring[emap[id] := Some(ring[emap[id]].value.(state := t, ackbuf := ackbuf))];
            && Occupied(ring', head, count)
            && Entries(ring', head, count) == AckList(q, t, id, ackbuf)
            && Indexed(AckList(q, t, id, ackbuf), |ring|, head, emap)
  {
    var q := Entries(ring, head, count);
    assert HasId(q, id);
    var k: nat :| k < |q| && q[k].pktid == id;
    IndexedIsDistinct(q, |ring|, head, emap);
    assert emap[id] == At(|ring|, head, k);
    var e := q[k].(state := t, ackbuf := ackbuf);
    hide Indexed, Occupied, AckList, DistinctIds;
    AckListUpdatesOne(q, k, t, ackbuf);
    UpdateSlot(ring, head, count, k, e);
    UpdateKeepsIndex(q, |ring|, head, emap, k, e);
  }

  lemma AckUnknown(q: seq<Entry>, t: MessageType, id: uint16, ackbuf: seq<byte>)
    requires !HasId(q, id)
    ensures AckList(q, t, id, ackbuf) == q
  {
  }

  // ------------------------------------------------------------------
  // The queue object
  // ------------------------------------------------------------------

  /** A message handed to Wait: what the queue looks at, and its encoding if it has one. */
  datatype Msg = Msg(mtype: MessageType, pktid: uint16, qos: nat, dup: bool, encoded: Option<seq<byte>>)

  datatype InsertError = Inserted | EncodeFailed | DuplicateId

  function InsertOp(m: Msg, now: int): Op {
    Insert(m.mtype, m.pktid, if m.encoded.Some? then m.encoded.value else [], m.encoded.Some?, now)
  }

  lemma FinishedStep(q: seq<Entry>, n: nat)
    requires n <= |q|
    ensures n < |q| && Finished(q[n]) ==>
              FinishedPrefix(q[n..]) == 1 + FinishedPrefix(q[n + 1..]) && q[n..][1..] == q[n + 1..]
              && q[..n] + [q[n]] == q[..n + 1]
    ensures n == |q| || !Finished(q[n]) ==> FinishedPrefix(q[n..]) == 0
    ensures q[0..] == q
  {
    if n < |q| { assert q[n..][1..] == q[n + 1..]; }
  }

  class Ackqueue {
    var size: nat
    var mask: nat
    var count: nat
    var head: nat
    var tail: nat
    var ping: Ping
    var ring: array<Option<Entry>>
    var emap: map<uint16, nat>

    ghost predicate Valid()
      reads this, ring
    {
      && IsPow2(size) && mask == size - 1 && ring.Length == size && head < size
      && Occupied(ring[..], head, count) && tail == At(size, head, count)
      && Indexed(Entries(ring[..], head, count), size, head, emap)
    }

    ghost function Live(): (q: seq<Entry>)
      requires Valid()
      reads this, ring
      ensures |q| == count
    {
      Entries(ring[..], head, count)
    }

    /** The queue this object stands for. */
    ghost function Abstract(): (q: Queue)
      requires Valid()
      reads this, ring
      ensures ValidQueue(q)
    {
      IndexedIsDistinct(Live(), size, head, emap);
      Queue(size, Live(), ping)
    }

    /** An empty queue with room for n entries: the size is the least power of two that holds them. */
    constructor (n: nat)
      requires 1 <= n <= Pow2(62)
      ensures Valid() && fresh(ring) && Abstract() == Queue(size, [], NoPing)
      ensures n <= size && forall k: nat :: n <= Pow2(k) ==> size <= Pow2(k)
      ensures IsPow2(n) ==> size == n
    {
      hide Pow2, IsPow2;
      var m := QueueSize(n);
      size, mask, count, head, tail := m, m - 1, 0, 0, 0;
      ring := new Option<Entry>[m](_ => None);
      emap := map[];
      ping := NoPing;
    }

    method Increment(n: nat) returns (r: nat)
      requires IsPow2(size) && mask == size - 1 && n < size
      ensures r == At(size, n, 1)
    {
      IncrementWraps(size, n);
      r := And(n + 1, mask);
    }

    /** A ring of twice the size with the entries moved to its start. */
    method Unrolled() returns (newring: array<Option<Entry>>)
      requires Valid()
      ensures fresh(newring) && newring.Length == 2 * size
      ensures Occupied(newring[..], 0, count) && Entries(newring[..], 0, count) == Live()
    {
      hide Indexed, IsPow2;
      newring := new Option<Entry>[2 * size](_ => None);
      if tail > head {
        forall i | 0 <= i < tail - head { newring[i] := ring[head + i]; }
      } else {
        forall i | 0 <= i < size - head { newring[i] := ring[head + i]; }
        forall i | 0 <= i < tail { newring[size - head + i] := ring[i]; }
      }
      ghost var r, r' := ring[..], newring[..];
      assert forall i: nat | i < count :: r'[i] == r[At(size, head, i)];
      assert forall i: nat | i < count :: At(2 * size, 0, i) == i;
    }

    /** The map from packet id to slot for entries that start at slot 0. */
    static method BuildIndex(ring: array<Option<Entry>>, n: nat, ghost q: seq<Entry>) returns (emap: map<uint16, nat>)
      requires Occupied(ring[..], 0, n) && Entries(ring[..], 0, n) == q && DistinctIds(q)
      ensures Indexed(q, ring.Length, 0, emap)
    {
      emap := map[];
      var i: nat := 0;
      ghost var r := ring[..];
      while i < n
        invariant i <= n
        invariant forall j: nat | j < i :: q[j].pktid in emap && emap[q[j].pktid] == j
        invariant forall id | id in emap :: HasId(q, id)
      {
        assert r[At(|r|, 0, i)].Some? && r[i].value == q[i];
        emap := emap[ring[i].value.pktid := i];
        i := i + 1;
      }
    }

    /** Doubles the ring, unrolling it from slot 0 and rebuilding the map. */
    method Grow()
      requires Valid() && count == size
      modifies this
      ensures Valid() && fresh(ring)
      ensures Abstract() == old(Abstract()).(size := 2 * old(size))
    {
      hide Indexed, IsPow2, DistinctIds, Occupied, HasId;
      ghost var q := Live();
      IndexedIsDistinct(q, size, head, emap);
      Pigeonhole(q);
      Pow2Doubles(size);
      assert size <= MAX_INT64 / 2;  // so the overflow panic is not reached
      var newring := Unrolled();
      var newmap := BuildIndex(newring, count, q);
      size := 2 * size;
      mask := size - 1;
      ring, emap := newring, newmap;
      head, tail := 0, count;
      assert Valid() && Live() == q;
    }

    /** Queues the message unless its id is already queued or it does not encode. */
    method Insert(m: Msg, now: int) returns (err: InsertError)
      requires Valid()
      modifies this, ring
      ensures Valid() && (ring == old(ring) || fresh(ring))
      ensures Abstract() == Step(old(Abstract()), InsertOp(m, now))
      ensures err == if !HasId(old(Live()), m.pktid) then (if m.encoded.Some? then Inserted else EncodeFailed)
                     else if m.mtype == PUBLISH && !m.dup then Inserted else DuplicateId
    {
      ghost var q := Abstract();
      if count == size {
        Grow();
      }
      GrownKeepsValid(q);
      assert Abstract() == Grown(q);
      IndexedIsDistinct(Live(), size, head, emap);
      if m.pktid !in emap {
        if m.encoded.None? {
          return EncodeFailed;
        }
        var am := Entry(m.mtype, RESERVED, m.pktid, m.encoded.value, [], now);
        Append(am);
        assert Live()[count - 1].pktid == m.pktid;
        return Inserted;
      } else if m.mtype != PUBLISH {
        return DuplicateId;
      } else if m.dup {
        return DuplicateId;
      }
      return Inserted;
    }

    method Append(am: Entry)
      requires Valid() && count < size && am.pktid !in emap
      modifies this`tail, this`count, this`emap, ring
      ensures Valid() && Live() == old(Live()) + [am] && count == old(count) + 1
    {
      PushBack(ring[..], head, count, am, emap);
      ghost var r := ring[..];
      ring[tail] := Some(am);
      assert ring[..] == r[tail := Some(am)];
      emap := emap[am.pktid := tail];
      tail := Increment(tail);
      count := count + 1;
    }

    /** Copies the message into the queue; only messages that get an ack may wait. */
    method Wait(m: Msg, now: int) returns (ok: bool)
      requires Valid()
      modifies this, ring
      ensures Valid() && (ring == old(ring) || fresh(ring))
      ensures ok <==> (m.mtype == PUBLISH && m.qos != 0) || m.mtype == SUBSCRIBE
                      || m.mtype == UNSUBSCRIBE || m.mtype == PINGREQ
      ensures Abstract() == if !ok then old(Abstract())
                            else Step(old(Abstract()), if m.mtype == PINGREQ then WaitPing else InsertOp(m, now))
    {
      match m.mtype {
        case PUBLISH =>
          if m.qos == 0 {
            return false;
          }
          var _ := Insert(m, now);
        case SUBSCRIBE =>
          var _ := Insert(m, now);
        case UNSUBSCRIBE =>
          var _ := Insert(m, now);
        case PINGREQ =>
          ping := PingWaiting;
        case _ =>
          return false;
      }
      return true;
    }

    /** Records an ack on the queued message with its packet id, if there is one. The entry is marked
        even when the ack does not encode; `encoded` is what is then in its buffer. */
    method Ack(t: MessageType, id: uint16, encoded: seq<byte>, encodes: bool) returns (ok: bool)
      requires Valid()
      modifies this`ping, ring
      ensures Valid()
      ensures ok <==> (AckType(t) && (encodes || !HasId(old(Live()), id))) || t == PINGRESP
      ensures Abstract() == Step(old(Abstract()), if t == PINGRESP then AckPing else AckModel.Ack(t, id, encoded))
    {
      hide Indexed, IsPow2, HasId, DistinctIds, AckList, At;
      if AckType(t) {
        ghost var r, q := ring[..], Live();
        IndexedIsDistinct(q, size, head, emap);
        if id in emap {
          var i := emap[id];
          AckSlot(r, head, count, emap, t, id, encoded);
          ring[i] := Some(ring[i].value.(state := t, ackbuf := encoded));
          assert ring[..] == r[i := ring[i]];
          return encodes;
        }
        AckUnknown(q, t, id, encoded);
        return true;
      } else if t == PINGRESP {
        if !ping.NoPing? {
          ping := PingAnswered;
        }
        return true;
      }
      return false;
    }

    method Front() returns (e: Entry)
      requires Valid() && count > 0
      ensures e == Live()[0]
    {
      hide Indexed, IsPow2;
      assert At(size, head, 0) == head;
      e := ring[head].value;
    }

    method RemoveHead() returns (it: Entry)
      requires Valid() && count > 0
      modifies this`head, this`count, this`emap, ring
      ensures Valid() && it == old(Live())[0] && Live() == old(Live())[1..]
    {
      ghost var r := ring[..];
      PopFront(r, head, count, emap);
      assert At(size, head, 0) == head;
      it := ring[head].value;
      ring[head] := None;
      assert ring[..] == r[head := None];
      head := Increment(head);
      count := count - 1;
      emap := emap - {it.pktid};
    }

    method TakeFinished() returns (done: seq<Entry>)
      requires Valid()
      modifies this`head, this`count, this`emap, ring
      ensures Valid()
      ensures done == old(Live())[..FinishedPrefix(old(Live()))]
      ensures Live() == old(Live())[FinishedPrefix(old(Live()))..]
    {
      hide Indexed, Occupied, IsPow2, Entries, FinishedPrefix;
      done := [];
      ghost var q := Live();
      while count > 0
        invariant Valid()
        invariant |done| <= |q| && done == q[..|done|] && Live() == q[|done|..]
        invariant FinishedPrefix(q) == |done| + FinishedPrefix(Live())
        decreases count
      {
        var front := Front();
        FinishedStep(q, |done|);
        if !Finished(front) {
          break;
        }
        var it := RemoveHead();
        done := done + [it];
      }
      FinishedStep(q, |done|);
    }

    /** Takes the finished messages off the front of the queue. */
    method Acked() returns (pinged: bool, done: seq<Entry>)
      requires Valid()
      modifies this`ping, this`head, this`count, this`emap, ring
      ensures Valid()
      ensures pinged == old(ping).PingAnswered?
      ensures done == Removed(old(Abstract()), AckModel.Acked)
      ensures Abstract() == Step(old(Abstract()), AckModel.Acked)
    {
      hide Indexed, Occupied, IsPow2, FinishedPrefix;
      pinged := ping.PingAnswered?;
      if pinged {
        ping := NoPing;
      }
      done := TakeFinished();
    }

    method DropExpired(now: int)
      requires Valid()
      modifies this`head, this`count, this`emap, ring
      ensures Valid()
      ensures Live() == old(Live())[ExpiredPrefix(old(Live()), now)..]
    {
      hide Indexed, Occupied, IsPow2, Entries;
      ghost var q := Live();
      ghost var n := 0;
      while count > 0
        invariant Valid()
        invariant n <= |q| && Live() == q[n..]
        invariant ExpiredPrefix(q, now) == n + ExpiredPrefix(Live(), now)
        decreases count
      {
        var front := Front();
        if !Expired(front, now) {
          break;
        }
        var _ := RemoveHead();
        n := n + 1;
      }
    }

    /** One tick of the cleaner: drops the expired messages at the front. */
    method Clear(now: int)
      requires Valid()
      modifies this`head, this`count, this`emap, ring
      ensures Valid()
      ensures Abstract() == Step(old(Abstract()), AckModel.Clear(now))
    {
      hide Indexed, Occupied, IsPow2, ExpiredPrefix;
      DropExpired(now);
    }
  }
}
