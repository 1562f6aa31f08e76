/**
 The PublishMessage object. A decoded message keeps slices of the buffer it was decoded from,
 so the flag and packet id setters write through to that buffer, and Encode of a message that
 is not dirty copies the buffer out again.
 */
module PublishMessage {
  import opened Bits
  import opened Bytes
  import opened MessageTypes
  import opened PublishCodec
  import opened Wire

  // ------------------------------------------------------------------
  // The flag byte
  // ------------------------------------------------------------------

  function DupSet(b: byte, v: bool): int {
    if v then Or(b, 8) else And(b, 247)
  }

  function RetainSet(b: byte, v: bool): int {
    if v then Or(b, 1) else And(b, 254)
  }

  function QosSet(b: byte, v: nat): int {
    Or(And(b, 249), 2 * v)
  }

  lemma Powers()
    ensures Pow2(0) == 1 && Pow2(1) == 2 && Pow2(2) == 4 && Pow2(3) == 8 && Pow2(5) == 32 && Pow2(8) == 256
  {
    assert Pow2(4) == 16;
    assert Pow2(6) == 64;
  }

  lemma LowBits(b: nat)
    ensures Bit(b, 0) == (b % 2 == 1) && Bit(b, 1) == (b / 2 % 2 == 1)
    ensures Bit(b, 2) == (b / 4 % 2 == 1) && Bit(b, 3) == (b / 8 % 2 == 1)
  {
    BitZero(b);
    BitZero(b / 2);
    BitZero(b / 4);
    BitZero(b / 8);
    hide Bit;
    BitOfHalf(b, 0);
    BitOfHalf(b, 1);
    BitOfHalf(b, 2);
    BitOfHalf(b / 2, 0);
    BitOfHalf(b / 2, 1);
    BitOfHalf(b / 4, 0);
    assert b / 2 / 2 == b / 4 && b / 4 / 2 == b / 8;
  }

  lemma BitZero(b: nat)
    ensures Bit(b, 0) == (b % 2 == 1)
  {
  }

  lemma DupSetIsField(m: Publish, v: bool)
    requires m.qos <= 2
    ensures DupSet(FirstByte(m), v) == FirstByte(m.(dup := v))
  {
    hide And, Or, Bit;
    var b := FirstByte(m);
    Powers();
    LowBits(b);
    OrBit(b, 3);
    AndNotBit(b, 8, 3);
  }

  lemma RetainSetIsField(m: Publish, v: bool)
    requires m.qos <= 2
    ensures RetainSet(FirstByte(m), v) == FirstByte(m.(retain := v))
  {
    hide And, Or, Bit;
    var b := FirstByte(m);
    Powers();
    LowBits(b);
    OrBit(b, 0);
    AndNotBit(b, 8, 0);
  }

  /** b & 11111001 */
  lemma ClearQos(b: byte)
    ensures And(b, 249) == 8 * (b / 8) + b % 2
  {
    hide And;
    AndWithOdd(b, 124);
    AndWithEven(b / 2, 62);
    AndWithEven(b / 4, 31);
    assert b / 2 / 2 == b / 4 && b / 4 / 2 == b / 8 < 32;
    Powers();
    MaskIsMod(b / 8, 5);
  }

  lemma OrQos(h: nat, r: nat, v: nat)
    requires r < 2 && v <= 2
    ensures Or(8 * h + r, 2 * v) == 8 * h + r + 2 * v
  {
    hide Or, Bit;
    var c := 8 * h + r;
    Powers();
    LowBits(c);
    assert c / 2 == 4 * h && c / 4 == 2 * h;
    OrBit(c, 1);
    OrBit(c, 2);
    if v == 0 { OrZero(c); }
  }

  lemma QosSetIsField(m: Publish, v: nat)
    requires m.qos <= 2 && v <= 2
    ensures QosSet(FirstByte(m), v) == FirstByte(m.(qos := v))
  {
    hide And, Or;
    var b := FirstByte(m);
    var h := 6 + BoolBit(m.dup);
    assert b == 8 * h + (2 * m.qos + BoolBit(m.retain));
    assert b / 8 == h && b % 2 == BoolBit(m.retain);
    ClearQos(b);
    OrQos(h, BoolBit(m.retain), v);
  }

  // ------------------------------------------------------------------
  // Where the fields of a packet are
  // ------------------------------------------------------------------

  /** The offset of the packet id in the packet of a QoS 1 or 2 message. */
  function IdOffset(m: Publish): nat {
    HeaderLen(MsgLen(m)) + 2 + |m.topic|
  }

  lemma PacketIs(m: Publish)
    requires WellFormed(m)
    ensures Packet(m) == [FirstByte(m)] + PutUvarint(MsgLen(m)) + (PutUint16(|m.topic|) + m.topic) + Tail(m, 0)
    ensures |PutUvarint(MsgLen(m))| == LengthBytes(MsgLen(m))
    ensures |Packet(m)| == Len(m) == HeaderLen(MsgLen(m)) + MsgLen(m)
  {
    hide PutUvarint, FirstByte, ToInt32;
    FirstByteFields(m);
    HeaderEncodes(PUBLISH, FirstByte(m), MsgLen(m));
    EncodesWhole(m, 0);
    PutUvarintLength(MsgLen(m));
  }

  /** Changing DUP, RETAIN or QoS 1/2 changes the first byte of the packet and nothing else. */
  lemma FlagsInPlace(m: Publish, m': Publish)
    requires WellFormed(m) && WellFormed(m') && (m.qos == 0) == (m'.qos == 0)
    requires m' == m.(dup := m'.dup, retain := m'.retain, qos := m'.qos)
    ensures |Packet(m)| > 0 && Packet(m') == Packet(m)[0 := FirstByte(m')]
  {
    hide PutUvarint, FirstByte, Packet;
    PacketIs(m);
    PacketIs(m');
    HeadSwap(FirstByte(m), FirstByte(m'), PutUvarint(MsgLen(m)), PutUint16(|m.topic|) + m.topic, Tail(m, 0));
  }

  lemma HeadSwap(f: byte, g: byte, a: seq<byte>, b: seq<byte>, c: seq<byte>)
    ensures ([f] + a + b + c)[0 := g] == [g] + a + b + c
  {
  }

  /** Changing the packet id changes its two bytes and nothing else. */
  lemma IdInPlace(m: Publish, v: uint16)
    requires WellFormed(m) && m.qos != 0 && v != 0
    ensures var at := IdOffset(m);
            && at + 2 <= |Packet(m)|
            && Packet(m.(pktid := v)) == Packet(m)[..at] + PutUint16(v) + Packet(m)[at + 2..]
            && Packet(m)[at..at + 2] == PutUint16(m.pktid)
  {
    hide PutUvarint, FirstByte, Packet, PutUint16;
    var m' := m.(pktid := v);
    PacketIs(m);
    PacketIs(m');
    var front := [FirstByte(m)] + PutUvarint(MsgLen(m)) + (PutUint16(|m.topic|) + m.topic);
    assert FirstByte(m') == FirstByte(m) by { SameFlags(m', m); }
    assert |front| == IdOffset(m);
    assert Packet(m) == front + (PutUint16(m.pktid) + m.payload);
    assert Packet(m') == front + (PutUint16(v) + m.payload);
  }

  lemma SameFlags(a: Publish, b: Publish)
    requires a.qos == b.qos <= 2 && a.dup == b.dup && a.retain == b.retain
    ensures FirstByte(a) == FirstByte(b)
  {
  }

  /** Lowering the QoS to 0 in place leaves the packet id in the packet: it becomes the front of
      the payload. */
  lemma QosZeroInPlace(m: Publish)
    requires WellFormed(m) && m.qos != 0
    ensures var seen := m.(qos := 0, pktid := 0, payload := PutUint16(m.pktid) + m.payload);
            && WellFormed(seen)
            && Packet(m)[0 := FirstByte(m.(qos := 0))] == Packet(seen)
  {
    hide PutUvarint, Packet, PutUint16, FirstByte;
    var seen := m.(qos := 0, pktid := 0, payload := PutUint16(m.pktid) + m.payload);
    PacketIs(m);
    PacketIs(seen);
    assert Tail(seen, 0) == Tail(m, 0);
    SameFlags(seen, m.(qos := 0));
    HeadSwap(FirstByte(m), FirstByte(seen), PutUvarint(MsgLen(m)), PutUint16(|m.topic|) + m.topic, Tail(m, 0));
  }

  /** Writing the QoS into the packet of a QoS 1 or 2 message gives the encoding of the changed
      message exactly when the new QoS is not 0. */
  lemma QosInPlaceExact(m: Publish, v: nat)
    requires WellFormed(m) && m.qos != 0 && v <= 2
    ensures |Packet(m)| > 0 && Encode(m.(qos := v), 0).Ok?
    ensures Packet(m)[0 := FirstByte(m.(qos := v))] == Encode(m.(qos := v), 0).value <==> v != 0
  {
    hide PutUvarint, Packet, Encode;
    PacketIs(m);
    if v != 0 {
      FlagsInPlace(m, m.(qos := v));
      PacketIsEncode(m.(qos := v));
    } else {
      var w := m.(qos := 0, pktid := 0);
      PacketIs(w);
      PacketIsEncode(w);
      SameWithoutId(m);
      ShorterLength(MsgLen(w), MsgLen(m));
    }
  }

  lemma ShorterLength(a: nat, b: nat)
    requires a < b
    ensures HeaderLen(a) + a < HeaderLen(b) + b
  {
  }

  lemma PacketIsEncode(m: Publish)
    requires WellFormed(m)
    ensures Encode(m, 0).Ok? && Packet(m) == Encode(m, 0).value
  {
    EncodesWhole(m, 0);
  }

  lemma SameWithoutId(m: Publish)
    ensures Encode(m.(qos := 0), 0) == Encode(m.(qos := 0, pktid := 0), 0)
  {
  }

  // ------------------------------------------------------------------
  // The buffer of a message whose QoS may have become 0
  // ------------------------------------------------------------------

  /** The message with a QoS under which its packet has room for the id. */
  function Home(m: Publish): Publish {
    if m.qos == 0 then m.(qos := 1) else m
  }

  /** What setters make of the packet of a QoS 1 or 2 message: the room for the id stays, the first
      byte follows the message. */
  ghost function Image(m: Publish): (b: seq<byte>)
    requires WellFormed(Home(m)) && m.qos <= 2
    ensures |b| == |Packet(Home(m))| > 0 && b[0] == FirstByte(m)
  {
    PacketHead(Home(m));
    Packet(Home(m))[0 := FirstByte(m)]
  }

  /** The image is the encoding of the message exactly when its QoS is not 0. */
  lemma ImageExact(m: Publish)
    requires WellFormed(Home(m)) && m.qos <= 2
    ensures Encode(m, 0).Ok? && (Image(m) == Encode(m, 0).value <==> m.qos != 0)
  {
    hide Packet, Encode, FirstByte;
    QosInPlaceExact(Home(m), m.qos);
    assert Home(m).(qos := m.qos) == m;
  }

  lemma ImageOfPacket(m: Publish)
    requires WellFormed(m) && m.qos != 0
    ensures Image(m) == Packet(m)
  {
    hide Packet, FirstByte;
    PacketHead(m);
  }

  lemma ImageFlags(m: Publish, m': Publish)
    requires WellFormed(Home(m)) && m.qos <= 2 && m'.qos <= 2
    requires m' == m.(dup := m'.dup, retain := m'.retain, qos := m'.qos)
    ensures WellFormed(Home(m')) && Image(m') == Image(m)[0 := FirstByte(m')]
    ensures IdOffset(Home(m')) == IdOffset(Home(m))
  {
    hide Packet, FirstByte;
    FlagsInPlace(Home(m), Home(m'));
  }

  lemma ImageId(m: Publish, v: uint16)
    requires WellFormed(Home(m)) && m.qos <= 2 && v != 0
    ensures WellFormed(Home(m.(pktid := v))) && IdOffset(Home(m.(pktid := v))) == IdOffset(Home(m))
    ensures var at := IdOffset(Home(m));
            at + 2 <= |Image(m)| && Image(m.(pktid := v)) == Image(m)[..at] + PutUint16(v) + Image(m)[at + 2..]
  {
    hide Packet, FirstByte, PutUint16;
    IdInPlace(Home(m), v);
    SameFlags(m.(pktid := v), m);
  }

  lemma PacketHead(m: Publish)
    requires WellFormed(m)
    ensures |Packet(m)| > 0 && Packet(m)[0] == FirstByte(m)
  {
    hide Packet, FirstByte, PutUvarint;
    PacketIs(m);
  }

  // ------------------------------------------------------------------
  // The message object
  // ------------------------------------------------------------------

  /** A Go slice: part of an array, or nil. */
  datatype Slice = Nil | Slice(arr: array<byte>, lo: nat, hi: nat) {
    ghost predicate Ok() {
      Slice? ==> lo <= hi <= arr.Length
    }

    ghost function Content(): seq<byte>
      requires Ok()
      reads if Slice? then {arr} else {}
    {
      if Slice? then arr[lo..hi] else []
    }
  }

  datatype Setter = Dup(v: bool) | Retain(r: bool) | Qos(q: nat) | Id(id: uint16)

  /** What a setter means for the message. SetPacketId(0) and an invalid QoS change nothing. */
  function Updated(m: Publish, s: Setter): Publish {
    match s
    case Dup(v) => m.(dup := v)
    case Retain(v) => m.(retain := v)
    case Qos(v) => if v <= 2 then m.(qos := v) else m
    case Id(v) => if v == 0 then m else m.(pktid := v)
  }

  function UpdatedAll(m: Publish, ss: seq<Setter>): Publish {
    if ss == [] then m else Updated(UpdatedAll(m, ss[..|ss| - 1]), ss[|ss| - 1])
  }

  lemma FlagRanges(b: byte, v: bool, q: nat)
    ensures 0 <= DupSet(b, v) < 256 && 0 <= RetainSet(b, v) < 256
    ensures q <= 2 ==> 0 <= QosSet(b, q) < 256
  {
    hide And, Or, Bit;
    Powers();
    LowBits(b);
    OrBit(b, 3);
    AndNotBit(b, 8, 3);
    OrBit(b, 0);
    AndNotBit(b, 8, 0);
    ClearQos(b);
    if q <= 2 { OrQos(b / 8, b % 2, q); }
  }

  lemma SubSlice(a: seq<byte>, lo: nat, hi: nat, x: nat, y: nat)
    requires lo <= hi <= |a| && x <= y <= hi - lo
    ensures a[lo..hi][x..y] == a[lo + x..lo + y]
  {
    var b, c := a[lo..hi][x..y], a[lo + x..lo + y];
    assert |b| == |c| && forall i: nat | i < |b| :: b[i] == c[i];
  }

  /** Where the fields of the decoded message lie in the buffer around the packet. */
  lemma DecodedFields(a: seq<byte>, lo: nat, hi: nat)
    requires lo <= hi <= |a| && Locate(a[lo..hi]).Ok?
    ensures var l := Locate(a[lo..hi]).value;
            var m := MessageAt(a[lo..hi], l);
            && m.qos == QosOf(l.first)
            && a[lo + l.topicLo..lo + l.topicHi] == m.topic && a[lo + l.start..lo + l.end] == m.payload
            && (m.qos != 0 ==> Uint16(a[lo + l.topicHi..lo + l.topicHi + 2]) == m.pktid)
  {
    hide Locate, Uint16, QosOf;
    var l := Locate(a[lo..hi]).value;
    SubSlice(a, lo, hi, l.topicLo, l.topicHi);
    SubSlice(a, lo, hi, l.start, l.end);
    if QosOf(l.first) != 0 { SubSlice(a, lo, hi, l.topicHi, l.topicHi + 2); }
  }

  class Message {
    var mtypeflags: Slice
    var packetId: Slice
    var topic: Slice
    var payload: Slice
    var dbuf: Slice
    var dirty: bool

    constructor ()
      ensures mtypeflags.Slice? && fresh(mtypeflags.arr)
      ensures mtypeflags.lo == 0 && mtypeflags.hi == 1 == mtypeflags.arr.Length
      ensures mtypeflags.arr[0] == 0x30
      ensures packetId.Nil? && topic.Nil? && payload.Nil? && dbuf.Nil? && dirty
    {
      var b := new byte[1] [0x30];
      mtypeflags := Slice(b, 0, 1);
      packetId, topic, payload, dbuf := Nil, Nil, Nil, Nil;
      dirty := true;
    }

    /** The message still lies, unchanged but for its fields, in the buffer it was decoded from:
        that buffer holds exactly the image of m. */
    ghost predicate Backed(m: Publish)
      reads this, if dbuf.Slice? then {dbuf.arr} else {}
    {
      && !dirty && WellFormed(Home(m)) && m.qos <= 2
      && dbuf.Slice? && dbuf.Ok() && dbuf.Content() == Image(m)
      && mtypeflags == Slice(dbuf.arr, dbuf.lo, dbuf.lo + 1)
      && packetId == Slice(dbuf.arr, dbuf.lo + IdOffset(Home(m)), dbuf.lo + IdOffset(Home(m)) + 2)
    }

    /** Decode: the fields become slices of src. */
    method Decode(src: Slice) returns (r: Result<nat>)
      requires src.Slice? && src.Ok()
      modifies this
      ensures r.Ok? <==> PublishCodec.Decode(src.Content()).Ok?
      ensures r.Err? ==> r.error == PublishCodec.Decode(src.Content()).error
      ensures r.Ok? ==>
                var l := Locate(src.Content()).value;
                && r.value == l.end && !dirty && dbuf == src
                && mtypeflags == Slice(src.arr, src.lo, src.lo + 1)
                && topic == Slice(src.arr, src.lo + l.topicLo, src.lo + l.topicHi)
                && payload == Slice(src.arr, src.lo + l.start, src.lo + l.end)
                && (QosOf(l.first) != 0 ==> packetId == Slice(src.arr, src.lo + l.topicHi, src.lo + l.topicHi + 2))
      ensures r.Ok? ==>
                var m := PublishCodec.Decode(src.Content()).value.0;
                && topic.Ok() && topic.Content() == m.topic && payload.Ok() && payload.Content() == m.payload
                && (m.qos != 0 ==> packetId.Ok() && Uint16(packetId.Content()) == m.pktid)
    {
      hide Locate, Uint16, MessageAt, QosOf, ValidTopic;
      var s := src.arr[src.lo..src.hi];
      dbuf := src;
      var l :- Locate(s);
      DecodedFields(src.arr[..], src.lo, src.hi);
      mtypeflags := Slice(src.arr, src.lo, src.lo + 1);
      topic := Slice(src.arr, src.lo + l.topicLo, src.lo + l.topicHi);
      if QosOf(l.first) != 0 {
        packetId := Slice(src.arr, src.lo + l.topicHi, src.lo + l.topicHi + 2);
      }
      payload := Slice(src.arr, src.lo + l.start, src.lo + l.end);
      dirty := false;
      return Result.Ok(l.end);
    }

    /** The slice with the type and flags is there, as every setter expects. */
    ghost predicate HasFlags() reads this {
      mtypeflags.Slice? && mtypeflags.Ok() && mtypeflags.hi == mtypeflags.lo + 1
    }

    method SetDup(v: bool)
      requires HasFlags()
      modifies mtypeflags.arr
      ensures 0 <= DupSet(old(mtypeflags.arr[mtypeflags.lo]), v) < 256
      ensures mtypeflags.arr[..]
           == old(mtypeflags.arr[..])[mtypeflags.lo := DupSet(old(mtypeflags.arr[mtypeflags.lo]), v)]
    {
      var b := mtypeflags.arr[mtypeflags.lo];
      FlagRanges(b, v, 0);
      mtypeflags.arr[mtypeflags.lo] := DupSet(b, v);
    }

    method SetRetain(v: bool)
      requires HasFlags()
      modifies mtypeflags.arr
      ensures 0 <= RetainSet(old(mtypeflags.arr[mtypeflags.lo]), v) < 256
      ensures mtypeflags.arr[..]
           == old(mtypeflags.arr[..])[mtypeflags.lo := RetainSet(old(mtypeflags.arr[mtypeflags.lo]), v)]
    {
      var b := mtypeflags.arr[mtypeflags.lo];
      FlagRanges(b, v, 0);
      mtypeflags.arr[mtypeflags.lo] := RetainSet(b, v);
    }

    method SetQoS(v: nat) returns (ok: bool)
      requires HasFlags()
      modifies mtypeflags.arr
      ensures ok <==> v <= 2
      ensures !ok ==> mtypeflags.arr[..] == old(mtypeflags.arr[..])
      ensures ok ==> 0 <= QosSet(old(mtypeflags.arr[mtypeflags.lo]), v) < 256
      ensures ok ==>
                mtypeflags.arr[..]
                == old(mtypeflags.arr[..])[mtypeflags.lo := QosSet(old(mtypeflags.arr[mtypeflags.lo]), v)]
    {
      if v != 0 && v != 1 && v != 2 {
        return false;
      }
      var b := mtypeflags.arr[mtypeflags.lo];
      FlagRanges(b, true, v);
      mtypeflags.arr[mtypeflags.lo] := QosSet(b, v);
      return true;
    }

    /** Writes the id into the message's two bytes, making room for them first if there are none. */
    method SetPacketId(v: uint16)
      requires packetId.Ok()
      modifies this`packetId, this`dirty, if packetId.Slice? then {packetId.arr} else {}
      ensures v == 0 ==>
                packetId == old(packetId) && dirty == old(dirty) && packetId.Content() == old(packetId.Content())
      ensures v != 0 ==> packetId.Slice? && packetId.Ok() && packetId.Content() == PutUint16(v)
      ensures v != 0 && |old(packetId.Content())| == 2 ==>
                && packetId == old(packetId) && dirty == old(dirty)
                && packetId.arr[..]
                   == old(packetId.arr[..packetId.lo]) + PutUint16(v) + old(packetId.arr[packetId.hi..])
      ensures v != 0 && |old(packetId.Content())| != 2 ==>
                dirty && fresh(packetId.arr) && (old(packetId).Slice? ==> unchanged(old(packetId).arr))
    {
      if v == 0 {
        return;
      }
      if packetId.Nil? || packetId.hi - packetId.lo != 2 {
        var b := new byte[2] [0, 0];
        packetId := Slice(b, 0, 2);
        dirty := true;
      }
      packetId.arr[packetId.lo], packetId.arr[packetId.lo + 1] := v / 256, v % 256;
    }

    /** A flag setter on a message that lies in its buffer: the buffer becomes the image of the
        updated message. */
    method ApplyFlag(s: Setter, ghost m: Publish)
      requires Backed(m) && !s.Id?
      modifies dbuf.arr
      ensures Backed(Updated(m, s))
    {
      hide Image, Home, IdOffset, WellFormed, DupSet, RetainSet, QosSet, FirstByte;
      ghost var a := dbuf.arr[..];
      BufferHead(a, dbuf.lo, dbuf.hi, m);
      if s.Qos? && s.q > 2 {
        var _ := SetQoS(s.q);
        return;
      }
      FlagsInBuffer(a, dbuf.lo, dbuf.hi, m, Updated(m, s));
      match s {
        case Dup(v) =>
          SetDup(v);
          DupSetIsField(m, v);
        case Retain(v) =>
          SetRetain(v);
          RetainSetIsField(m, v);
        case Qos(v) =>
          var _ := SetQoS(v);
          QosSetIsField(m, v);
      }
    }

    /** The same for SetPacketId. */
    method ApplyId(v: uint16, ghost m: Publish)
      requires Backed(m)
      modifies this`packetId, this`dirty, dbuf.arr
      ensures Backed(Updated(m, Id(v)))
    {
      hide Image, Home, WellFormed, PutUint16, IdOffset, FirstByte;
      if v == 0 {
        return;
      }
      ghost var a := dbuf.arr[..];
      IdInBuffer(a, dbuf.lo, dbuf.hi, m, v);
      SetPacketId(v);
    }

    /** Any sequence of setters on a decoded message followed by Encode. */
    method ApplyAll(ss: seq<Setter>, ghost m: Publish)
      requires Backed(m)
      modifies this`packetId, this`dirty, dbuf.arr
      ensures Backed(UpdatedAll(m, ss))
    {
      hide WellFormed, Image, Home, IdOffset, Updated;
      assert ss[..0] == [];
      for i := 0 to |ss|
        invariant Backed(UpdatedAll(m, ss[..i]))
      {
        assert ss[..i + 1][..i] == ss[..i] && ss[i] in ss;
        if ss[i].Id? {
          ApplyId(ss[i].id, UpdatedAll(m, ss[..i]));
        } else {
          ApplyFlag(ss[i], UpdatedAll(m, ss[..i]));
        }
      }
      assert ss[..|ss|] == ss;
    }

    /** Encode of an unchanged message copies the buffer it was decoded from. */
    method EncodeClean(dst: array<byte>) returns (r: Result<nat>)
      requires !dirty && dbuf.Slice? && dbuf.Ok() && dst != dbuf.arr
      modifies dst
      ensures r.Ok? <==> dst.Length >= dbuf.hi - dbuf.lo
      ensures r.Ok? ==> r.value == dbuf.hi - dbuf.lo && dst[..r.value] == dbuf.Content()
      ensures r.Err? ==> r.error == ShortBuffer && dst[..] == old(dst[..])
    {
      var n := dbuf.hi - dbuf.lo;
      if dst.Length < n {
        return Err(ShortBuffer);
      }
      forall i | 0 <= i < n {
        dst[i] := dbuf.arr[dbuf.lo + i];
      }
      return Result.Ok(n);
    }

    method DecodeBacked(src: Slice, ghost m: Publish)
      requires WellFormed(m) && m.qos != 0
      requires src.Slice? && src.Ok() && src.Content() == Packet(m)
      modifies this
      ensures Backed(m) && dbuf == src
    {
      hide Packet, Image, Locate, FirstByte, IdOffset;
      PacketLocated(m);
      ImageOfPacket(m);
      var _ := Decode(src);
    }

    /** Decoding a packet from a buffer that holds exactly it, changing flags and id in any order
        and encoding again gives the encoding of the changed message if and only if its QoS does not
        end up as 0. */
    method Rewrite(src: Slice, ss: seq<Setter>, dst: array<byte>, ghost m: Publish) returns (n: nat)
      requires WellFormed(m) && m.qos != 0
      requires src.Slice? && src.Ok() && src.Content() == Packet(m)
      requires dst != src.arr && dst.Length >= |Packet(m)|
      modifies this, src.arr, dst
      ensures n <= dst.Length && Backed(UpdatedAll(m, ss)) && dst[..n] == Image(UpdatedAll(m, ss))
      ensures Encode(UpdatedAll(m, ss), 0).Ok?
      ensures dst[..n] == Encode(UpdatedAll(m, ss), 0).value <==> UpdatedAll(m, ss).qos != 0
    {
      hide Packet, Image, Home, Encode, UpdatedAll, IdOffset, WellFormed, MsgLen;
      DecodeBacked(src, m);
      ApplyAll(ss, m);
      ImageExact(UpdatedAll(m, ss));
      var r := EncodeClean(dst);
      return r.value;
    }
  }

  lemma PacketLocated(m: Publish)
    requires WellFormed(m) && m.qos != 0
    ensures PublishCodec.Decode(Packet(m)).Ok? && Locate(Packet(m)).Ok?
    ensures var l := Locate(Packet(m)).value; l.topicHi == IdOffset(m) && QosOf(l.first) != 0
  {
    hide Locate, FirstByte, Encode;
    PacketIsEncode(m);
    assert Packet(m) + [] == Packet(m);
    LocateEncoded(m, 0, Packet(m), []);
    FirstByteFields(m);
  }

  lemma BufferHead(a: seq<byte>, lo: nat, hi: nat, m: Publish)
    requires WellFormed(Home(m)) && m.qos <= 2 && lo <= hi <= |a| && a[lo..hi] == Image(m)
    ensures lo < hi && a[lo] == FirstByte(m)
  {
    hide Packet, FirstByte;
    assert a[lo..hi][0] == a[lo];
  }

  lemma FlagsInBuffer(a: seq<byte>, lo: nat, hi: nat, m: Publish, m': Publish)
    requires WellFormed(Home(m)) && m.qos <= 2 && m'.qos <= 2
    requires m' == m.(dup := m'.dup, retain := m'.retain, qos := m'.qos)
    requires lo < hi <= |a| && a[lo..hi] == Image(m)
    ensures WellFormed(Home(m')) && a[lo := FirstByte(m')][lo..hi] == Image(m')
    ensures IdOffset(Home(m')) == IdOffset(Home(m))
  {
    hide Image, FirstByte;
    ImageFlags(m, m');
    BufferHeadChanged(a, lo, hi, FirstByte(m'));
  }

  lemma IdInBuffer(a: seq<byte>, lo: nat, hi: nat, m: Publish, v: uint16)
    requires WellFormed(Home(m)) && m.qos <= 2 && v != 0 && lo <= hi <= |a| && a[lo..hi] == Image(m)
    ensures var at := lo + IdOffset(Home(m));
            && WellFormed(Home(m.(pktid := v)))
            && at + 2 <= hi && IdOffset(Home(m.(pktid := v))) == IdOffset(Home(m))
            && (a[..at] + PutUint16(v) + a[at + 2..])[lo..hi] == Image(m.(pktid := v))
  {
    hide Image, PutUint16, Home, IdOffset, WellFormed;
    ImageId(m, v);
    BufferMiddleChanged(a, lo, hi, IdOffset(Home(m)), PutUint16(v));
  }

  lemma BufferHeadChanged(a: seq<byte>, lo: nat, hi: nat, b: byte)
    requires lo < hi <= |a|
    ensures a[lo := b][lo..hi] == a[lo..hi][0 := b]
  {
  }

  lemma BufferMiddleChanged(a: seq<byte>, lo: nat, hi: nat, at: nat, b: seq<byte>)
    requires lo <= hi <= |a| && at + |b| <= hi - lo
    ensures (a[..lo + at] + b + a[lo + at + |b|..])[lo..hi] == a[lo..hi][..at] + b + a[lo..hi][at + |b|..]
  {
    var x := (a[..lo + at] + b + a[lo + at + |b|..])[lo..hi];
    var y := a[lo..hi][..at] + b + a[lo..hi][at + |b|..];
    assert |x| == |y| && forall i: nat | i < |x| :: x[i] == y[i];
  }
}
