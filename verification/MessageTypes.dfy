/** The MQTT control packet types and their table of default flags. */
module MessageTypes {
  import opened Bytes

  datatype MessageType =
    | RESERVED | CONNECT | CONNACK | PUBLISH | PUBACK | PUBREC | PUBREL | PUBCOMP
    | SUBSCRIBE | SUBACK | UNSUBSCRIBE | UNSUBACK | PINGREQ | PINGRESP | DISCONNECT | RESERVED2

  /** The 4-bit code on the wire. */
  function Code(t: MessageType): (c: nat)
    ensures c < 16
  {
    match t
    case RESERVED => 0
    case CONNECT => 1
    case CONNACK => 2
    case PUBLISH => 3
    case PUBACK => 4
    case PUBREC => 5
    case PUBREL => 6
    case PUBCOMP => 7
    case SUBSCRIBE => 8
    case SUBACK => 9
    case UNSUBSCRIBE => 10
    case UNSUBACK => 11
    case PINGREQ => 12
    case PINGRESP => 13
    case DISCONNECT => 14
    case RESERVED2 => 15
  }

  function TypeOf(c: nat): (t: MessageType)
    requires c < 16
    ensures Code(t) == c
  {
    [RESERVED, CONNECT, CONNACK, PUBLISH, PUBACK, PUBREC, PUBREL, PUBCOMP,
     SUBSCRIBE, SUBACK, UNSUBSCRIBE, UNSUBACK, PINGREQ, PINGRESP, DISCONNECT, RESERVED2][c]
  }

  predicate ValidType(t: MessageType) {
    t != RESERVED && t != RESERVED2
  }

  function DefaultFlags(t: MessageType): (f: nat)
    ensures f < 16
  {
    if t == PUBREL || t == SUBSCRIBE || t == UNSUBSCRIBE then 2 else 0
  }

  /** The first byte of a packet with the given flags. */
  function TypeByte(t: MessageType, flags: nat): (b: byte)
    requires flags < 16
  {
    16 * Code(t) + flags
  }

  lemma TypeByteSplits(t: MessageType, flags: nat)
    requires flags < 16
    ensures TypeOf(TypeByte(t, flags) / 16) == t && TypeByte(t, flags) % 16 == flags
  {
    var c := TypeByte(t, flags) / 16;
    assert c == Code(t);
    CodeInjective(TypeOf(c), t);
  }

  lemma CodeInjective(a: MessageType, b: MessageType)
    requires Code(a) == Code(b)
    ensures a == b
  {
  }
}
