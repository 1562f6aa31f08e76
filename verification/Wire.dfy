/** Length-prefixed bytes, the remaining-length varint and the fixed header. */
module Wire {
  import opened Bytes
  import opened MessageTypes

  const MAX_REMAINING_LENGTH: nat := 268435455
  const MAX_LP_STRING: nat := 65535

  /** Why a call failed. OutOfRange stands for Go's slice-bounds panic. */
  datatype Error =
    | ShortBuffer | TooLong | OutOfRange
    | BadType | BadFlags | BadQos | BadLength
    | BadTopic | EmptyPayload | EmptyTopicList
    | BadVersion | BadConnectFlags | BadIdentifier

  datatype Result<+T> = Ok(value: T) | Err(error: Error) {
    predicate IsFailure() { Err? }
    function PropagateFailure<U>(): Result<U>
      requires Err?
    {
      Err(error)
    }
    function Extract(): T
      requires Ok?
    {
      value
    }
  }

  // ------------------------------------------------------------------
  // Length-prefixed bytes
  // ------------------------------------------------------------------

  function WriteLP(b: seq<byte>): Result<seq<byte>> {
    if |b| > MAX_LP_STRING then Err(TooLong) else Ok(PutUint16(|b|) + b)
  }

  /** The bytes read and how many were consumed. The length check compares with the whole
      buffer instead of what follows the prefix, so the slice can run past the end. */
  function ReadLP(buf: seq<byte>): Result<(seq<byte>, nat)> {
    if |buf| < 2 then Err(ShortBuffer)
    else
      var n := Uint16(buf);
      if |buf| < n then Err(ShortBuffer)
      else if |buf| < 2 + n then Err(OutOfRange)
      else Ok((buf[2..2 + n], 2 + n))
  }

  lemma WriteLPLength(b: seq<byte>)
    requires |b| <= MAX_LP_STRING
    ensures WriteLP(b).Ok? && |WriteLP(b).value| == 2 + |b|
  {
  }

  lemma LPRoundTrip(b: seq<byte>, rest: seq<byte>)
    requires |b| <= MAX_LP_STRING
    ensures ReadLP(WriteLP(b).value + rest) == Ok((b, 2 + |b|))
    ensures (WriteLP(b).value + rest)[2 + |b|..] == rest
  {
    var s := PutUint16(|b|) + b + rest;
    assert s == PutUint16(|b|) + (b + rest);
    Uint16RoundTrip(|b|, b + rest);
    assert s[2..2 + |b|] == b;
  }

  /** The parts of a packet with a packet id, whatever follows. */
  lemma Parts(h: seq<byte>, id: seq<byte>, body: seq<byte>, rest: seq<byte>)
    ensures h + id + body + rest == h + (id + (body + rest))
    ensures (h + id + body + rest)[|h|..|h| + |id|] == id
    ensures (h + id + body + rest)[|h| + |id|..] == body + rest
  {
  }

  // ------------------------------------------------------------------
  // The varint of encoding/binary
  // ------------------------------------------------------------------

  function PutUvarint(v: nat): (s: seq<byte>)
    ensures |s| > 0
  {
    if v < 128 then [v] else [v % 128 + 128] + PutUvarint(v / 128)
  }

  /** The position just after the first byte without continuation bit; 0 if there is none. */
  function VarintLen(s: seq<byte>): (n: nat)
    ensures n <= |s|
    ensures n > 0 ==> s[n - 1] < 128 && forall i | 0 <= i < n - 1 :: s[i] >= 128
    ensures n == 0 ==> forall i | 0 <= i < |s| :: s[i] >= 128
  {
    if s == [] then 0
    else if s[0] < 128 then 1
    else
      var n := VarintLen(s[1..]);
      if n == 0 then 0 else n + 1
  }

  /** Little-endian base-128 value. */
  function VarintValue(s: seq<byte>): nat {
    if s == [] then 0 else s[0] % 128 + 128 * VarintValue(s[1..])
  }

  /** binary.Uvarint: value and length; length 0 for a short buffer, negative for overflow. */
  function Uvarint(s: seq<byte>): (nat, int) {
    var k := VarintLen(s);
    if k == 0 then (if |s| > 10 then (0, -11) else (0, 0))
    else if k > 10 then (0, -11)
    else if k == 10 && s[9] > 1 then (0, -10)
    else (VarintValue(s[..k]), k)
  }

  /** How many bytes a remaining length takes. */
  function LengthBytes(remlen: int): nat {
    if remlen <= 127 then 1
    else if remlen <= 16383 then 2
    else if remlen <= 2097151 then 3
    else 4
  }

  lemma {:induction false} PutUvarintDecodes(v: nat, rest: seq<byte>)
    ensures VarintLen(PutUvarint(v) + rest) == |PutUvarint(v)|
    ensures VarintValue(PutUvarint(v)) == v
  {
    var s := PutUvarint(v) + rest;
    if v >= 128 {
      PutUvarintDecodes(v / 128, rest);
      assert s[1..] == PutUvarint(v / 128) + rest;
      assert PutUvarint(v)[1..] == PutUvarint(v / 128);
    }
  }

  lemma PutUvarintLength(v: nat)
    requires v <= MAX_REMAINING_LENGTH
    ensures |PutUvarint(v)| == LengthBytes(v)
  {
    if v >= 128 {
      var a := v / 128;
      if a >= 128 {
        var b := a / 128;
        if b >= 128 {
          assert b / 128 < 128;
        }
      }
    }
  }

  lemma UvarintRoundTrip(v: nat, rest: seq<byte>)
    requires v <= MAX_REMAINING_LENGTH
    ensures Uvarint(PutUvarint(v) + rest) == (v, LengthBytes(v))
  {
    PutUvarintDecodes(v, rest);
    PutUvarintLength(v);
    var s := PutUvarint(v) + rest;
    assert s[..|PutUvarint(v)|] == PutUvarint(v);
  }

  /** At most four length bytes carry at most the maximal remaining length. */
  lemma FourBytesBound(s: seq<byte>)
    requires |s| <= 4
    ensures VarintValue(s) <= MAX_REMAINING_LENGTH
  {
    if s != [] {
      var a := s[1..];
      if a != [] {
        var b := a[1..];
        if b != [] {
          var c := b[1..];
          if c != [] { assert c[1..] == []; }
        }
      }
    }
  }

  // ------------------------------------------------------------------
  // Fixed header
  // ------------------------------------------------------------------

  datatype Header = Header(first: byte, remlen: int, n: nat)

  /** int32(v) for an unsigned v. */
  function ToInt32(v: nat): int {
    var w := v % 0x1_0000_0000;
    if w >= 0x8000_0000 then w - 0x1_0000_0000 else w
  }

  /** The length of a header that carries this remaining length. */
  function HeaderLen(remlen: int): nat {
    1 + LengthBytes(remlen)
  }

  predicate ValidQos(q: int) {
    q == 0 || q == 1 || q == 2
  }

  function EncodeHeader(first: byte, remlen: int): Result<seq<byte>> {
    if remlen > MAX_REMAINING_LENGTH || remlen < 0 then Err(BadLength)
    else if !ValidType(TypeOf(first / 16)) then Err(BadType)
    else Ok([first] + PutUvarint(remlen))
  }

  function DecodeHeader(mtype: MessageType, src: seq<byte>): Result<Header> {
    if src == [] then Err(OutOfRange)
    else
      var t := TypeOf(src[0] / 16);
      var flags := src[0] % 16;
      if !ValidType(t) then Err(BadType)
      else if mtype != t then Err(BadType)
      else if t != PUBLISH && flags != DefaultFlags(t) then Err(BadFlags)
      else if t == PUBLISH && !ValidQos((flags / 2) % 4) then Err(BadQos)
      else
        var (v, m) := Uvarint(src[1..]);
        var remlen := ToInt32(v);
        if remlen > MAX_REMAINING_LENGTH then Err(BadLength)
        else if 1 + m < 0 then Err(OutOfRange)
        else if remlen > |src| - (1 + m) then Err(BadLength)
        else Ok(Header(src[0], remlen, 1 + m))
  }

  /** The first byte is one the decoder for mtype lets through. */
  predicate GoodFirst(mtype: MessageType, first: byte) {
    && ValidType(mtype) && first / 16 == Code(mtype)
    && (mtype != PUBLISH ==> first % 16 == DefaultFlags(mtype))
    && (mtype == PUBLISH ==> ValidQos((first % 16 / 2) % 4))
  }

  lemma HeaderEncodes(mtype: MessageType, first: byte, remlen: nat)
    requires GoodFirst(mtype, first) && remlen <= MAX_REMAINING_LENGTH
    ensures EncodeHeader(first, remlen).Ok? && |EncodeHeader(first, remlen).value| == HeaderLen(remlen)
    ensures ToInt32(remlen) == remlen
  {
    hide PutUvarint;
    CodeInjective(TypeOf(first / 16), mtype);
    PutUvarintLength(remlen);
  }

  lemma HeaderRoundTrip(mtype: MessageType, first: byte, remlen: nat, body: seq<byte>)
    requires GoodFirst(mtype, first) && remlen <= MAX_REMAINING_LENGTH && remlen <= |body|
    ensures EncodeHeader(first, remlen).Ok?
    ensures var h := EncodeHeader(first, remlen).value;
            && |h| == HeaderLen(remlen)
            && DecodeHeader(mtype, h + body) == Ok(Header(first, remlen, HeaderLen(remlen)))
            && (h + body)[HeaderLen(remlen)..] == body
  {
    hide Uvarint, PutUvarint;
    CodeInjective(TypeOf(first / 16), mtype);
    var h := [first] + PutUvarint(remlen);
    assert (h + body)[1..] == PutUvarint(remlen) + body;
    UvarintRoundTrip(remlen, body);
    PutUvarintLength(remlen);
  }

  /** An accepted header's length fits the rest of the buffer and the protocol's maximum. It is
      the length that was written exactly when that length is not above the maximum: a longer
      varint is cut to 32 bits first. */
  lemma AcceptedHeader(mtype: MessageType, src: seq<byte>)
    requires DecodeHeader(mtype, src).Ok?
    ensures var h := DecodeHeader(mtype, src).value;
            && GoodFirst(mtype, src[0]) && h.first == src[0]
            && h.remlen <= MAX_REMAINING_LENGTH && h.n + h.remlen <= |src|
            && (h.remlen == Uvarint(src[1..]).0 <==> Uvarint(src[1..]).0 <= MAX_REMAINING_LENGTH)
            && (VarintLen(src[1..]) <= 4 ==> h.remlen == Uvarint(src[1..]).0)
  {
    var k := VarintLen(src[1..]);
    if k <= 4 { FourBytesBound(src[1..][..k]); }
  }

  lemma FiveByteVarint()
    ensures Uvarint([0xff, 0xff, 0xff, 0xff, 0x0f]) == (0xffff_ffff, 5)
  {
    var s: seq<byte> := [0xff, 0xff, 0xff, 0xff, 0x0f];
    assert s[1..] == [0xff, 0xff, 0xff, 0x0f];
    assert s[2..] == [0xff, 0xff, 0x0f] == s[1..][1..];
    assert s[3..] == [0xff, 0x0f] == s[2..][1..];
    assert s[4..] == [0x0f] == s[3..][1..];
    assert VarintLen(s[3..]) == 2 && VarintLen(s[1..]) == 4;
    assert VarintValue(s[4..]) == 15 && VarintValue(s[3..]) == 2047;
    assert VarintValue(s[2..]) == 262143 && VarintValue(s[1..]) == 33554431;
    assert s[..5] == s;
  }

  /** Five length bytes can pass as a negative remaining length. */
  lemma NegativeLengthAccepted()
    ensures DecodeHeader(PUBLISH, [0x30, 0xff, 0xff, 0xff, 0xff, 0x0f]) == Ok(Header(0x30, -1, 6))
  {
    hide Uvarint;
    FiveByteVarint();
    assert [0x30, 0xff, 0xff, 0xff, 0xff, 0x0f][1..] == [0xff, 0xff, 0xff, 0xff, 0x0f];
  }
}
