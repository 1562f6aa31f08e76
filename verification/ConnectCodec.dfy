/** CONNECT on the wire: what a receiver gets from an encoded message, and when that is the message. */
module ConnectCodec {
  import opened Bytes
  import opened MessageTypes
  import opened Wire

  /** flags is the connect flags byte: user name, password, will retain, will QoS (two bits),
      will, clean session, reserved, from bit 7 down. */
  datatype Connect = Connect(
    flags: byte,
    version: byte,
    keepAlive: uint16,
    clientId: seq<byte>,
    willTopic: seq<byte>,
    willMessage: seq<byte>,
    username: seq<byte>,
    password: seq<byte>)
  {
    predicate CleanSession() { flags / 2 % 2 == 1 }
    predicate WillFlag() { flags / 4 % 2 == 1 }
    function WillQos(): nat { flags / 8 % 4 }
    predicate WillRetain() { flags / 32 % 2 == 1 }
    predicate PasswordFlag() { flags / 64 % 2 == 1 }
    predicate UsernameFlag() { flags / 128 % 2 == 1 }
  }

  /** "MQIsdp" for version 3 and "MQTT" for version 4. */
  function ProtoName(version: byte): seq<byte> {
    if version == 3 then [0x4d, 0x51, 0x49, 0x73, 0x64, 0x70]
    else if version == 4 then [0x4d, 0x51, 0x54, 0x54]
    else []
  }

  predicate Supported(version: byte) {
    version == 3 || version == 4
  }

  /** The characters of "|securemode&algorithm&timeStamp". */
  const ID_CHARS: set<byte> :=
    {0x7c, 0x73, 0x65, 0x63, 0x75, 0x72, 0x6d, 0x6f, 0x64, 0x26, 0x61, 0x6c, 0x67, 0x69, 0x74, 0x68, 0x53, 0x70}

  predicate ValidClientId(id: seq<byte>) {
    exists i | 0 <= i < |id| :: id[i] in ID_CHARS
  }

  predicate AcceptedClientId(m: Connect) {
    if |m.clientId| == 0 then m.CleanSession() else ValidClientId(m.clientId)
  }

  // ------------------------------------------------------------------
  // Encoding
  // ------------------------------------------------------------------

  predicate WritesUsername(m: Connect) { m.UsernameFlag() && |m.username| > 0 }
  predicate WritesPassword(m: Connect) { m.PasswordFlag() && |m.password| > 0 }

  function MsgLen(m: Connect): nat {
    if !Supported(m.version) then 0
    else
      2 + |ProtoName(m.version)| + 4
      + 2 + |m.clientId|
      + (if m.WillFlag() then 2 + |m.willTopic| + 2 + |m.willMessage| else 0)
      + (if WritesUsername(m) then 2 + |m.username| else 0)
      + (if WritesPassword(m) then 2 + |m.password| else 0)
  }

  function Len(m: Connect): nat {
    var remlen := ToInt32(MsgLen(m));
    if remlen > MAX_REMAINING_LENGTH || remlen < 0 then 0 else HeaderLen(remlen) + MsgLen(m)
  }

  function WriteIf(c: bool, b: seq<byte>): Result<seq<byte>> {
    if c then WriteLP(b) else Ok([])
  }

  function EncodeBody(m: Connect): Result<seq<byte>> {
    var proto :- WriteLP(ProtoName(m.version));
    var id :- WriteLP(m.clientId);
    var wt :- WriteIf(m.WillFlag(), m.willTopic);
    var wm :- WriteIf(m.WillFlag(), m.willMessage);
    var user :- WriteIf(WritesUsername(m), m.username);
    var pass :- WriteIf(WritesPassword(m), m.password);
    Ok(proto + ([m.version, m.flags] + PutUint16(m.keepAlive) + (id + (wt + (wm + (user + pass))))))
  }

  function FirstByte(): byte {
    TypeByte(CONNECT, DefaultFlags(CONNECT))
  }

  function Encode(m: Connect): Result<seq<byte>> {
    if !Supported(m.version) then Err(BadVersion)
    else
      var header :- EncodeHeader(FirstByte(), ToInt32(MsgLen(m)));
      var body :- EncodeBody(m);
      Ok(header + body)
  }

  // ------------------------------------------------------------------
  // Decoding
  // ------------------------------------------------------------------

  function ReadIf(c: bool, s: seq<byte>): Result<(seq<byte>, nat)> {
    if c then ReadLP(s) else Ok(([], 0))
  }

  /** The connect flags a decoder accepts. */
  predicate GoodFlags(m: Connect) {
    && m.flags % 2 == 0 && m.WillQos() <= 2
    && (!m.WillFlag() ==> !m.WillRetain() && m.WillQos() == 0)
    && (!m.UsernameFlag() ==> !m.PasswordFlag())
  }

  /** The part after keep alive, of a message whose flags are already read. */
  function DecodePayload(m: Connect, s: seq<byte>): Result<(Connect, nat)> {
    var (id, a) :- ReadLP(s);
    var m1 := m.(clientId := id);
    if !AcceptedClientId(m1) then Err(BadIdentifier)
    else
      var s1 := s[a..];
      var (wt, b) :- ReadIf(m.WillFlag(), s1);
      var s2 := s1[b..];
      var (wm, c) :- ReadIf(m.WillFlag(), s2);
      var s3 := s2[c..];
      var (user, d) :- ReadIf(m.UsernameFlag() && |s3| > 0, s3);
      var s4 := s3[d..];
      var (pass, e) :- ReadIf(m.PasswordFlag() && |s4| > 0, s4);
      Ok((m1.(willTopic := wt, willMessage := wm, username := user, password := pass), a + b + c + d + e))
  }

  function DecodeBody(s: seq<byte>): Result<(Connect, nat)> {
    var (proto, n) :- ReadLP(s);
    if n >= |s| then Err(OutOfRange)
    else if !Supported(s[n]) || ProtoName(s[n]) != proto then Err(BadVersion)
    else if n + 1 >= |s| then Err(OutOfRange)
    else
      var m := Connect(s[n + 1], s[n], 0, [], [], [], [], []);
      if !GoodFlags(m) then Err(BadConnectFlags)
      else if |s| < n + 4 then Err(ShortBuffer)
      else
        var (r, used) :- DecodePayload(m.(keepAlive := Uint16(s[n + 2..])), s[n + 4..]);
        Ok((r, n + 4 + used))
  }

  function Decode(src: seq<byte>): Result<(Connect, nat)> {
    var h :- DecodeHeader(CONNECT, src);
    if h.n > |src| then Err(OutOfRange)
    else
      var (m, n) :- DecodeBody(src[h.n..]);
      Ok((m, h.n + n))
  }

  // ------------------------------------------------------------------
  // What the receiver gets
  // ------------------------------------------------------------------

  /** Every field that is written fits its length prefix, and the whole fits the header. */
  predicate Writable(m: Connect) {
    && Supported(m.version) && MsgLen(m) <= MAX_REMAINING_LENGTH
    && |m.clientId| <= MAX_LP_STRING
    && (m.WillFlag() ==> |m.willTopic| <= MAX_LP_STRING && |m.willMessage| <= MAX_LP_STRING)
    && (WritesUsername(m) ==> |m.username| <= MAX_LP_STRING)
    && (WritesPassword(m) ==> |m.password| <= MAX_LP_STRING)
  }

  /** The message as it arrives: unflagged fields are dropped, and a password that follows a
      flagged but missing user name is taken for the user name. */
  function Received(m: Connect): Connect
  {
    var shifted := m.UsernameFlag() && |m.username| == 0 && WritesPassword(m);
    m.(willTopic := if m.WillFlag() then m.willTopic else [],
       willMessage := if m.WillFlag() then m.willMessage else [],
       username := if shifted then m.password else if m.UsernameFlag() then m.username else [],
       password := if shifted then [] else if m.PasswordFlag() then m.password else [])
  }

  lemma ReadIfWritten(c: bool, b: seq<byte>, rest: seq<byte>)
    requires c ==> |b| <= MAX_LP_STRING
    ensures WriteIf(c, b).Ok? && |WriteIf(c, b).value| == if c then 2 + |b| else 0
    ensures var w := WriteIf(c, b).value;
            && ReadIf(c, w + rest) == Ok((if c then b else [], |w|))
            && (w + rest)[|w|..] == rest
  {
    if c {
      LPRoundTrip(b, rest);
    }
  }

  /** The last two fields as they arrive. */
  lemma CredentialsArrive(m: Connect, s3: seq<byte>)
    requires GoodFlags(m) && Writable(m)
    requires WriteIf(WritesUsername(m), m.username).Ok? && WriteIf(WritesPassword(m), m.password).Ok?
    requires s3 == WriteIf(WritesUsername(m), m.username).value + WriteIf(WritesPassword(m), m.password).value
    ensures var user := ReadIf(m.UsernameFlag() && |s3| > 0, s3);
            && user.Ok? && user.value.1 <= |s3| && user.value.0 == Received(m).username
            && var s4 := s3[user.value.1..];
            var pass := ReadIf(m.PasswordFlag() && |s4| > 0, s4);
            pass.Ok? && pass.value.0 == Received(m).password && user.value.1 + pass.value.1 == |s3|
  {
    hide ReadLP, WriteLP;
    var u, p := WriteIf(WritesUsername(m), m.username).value, WriteIf(WritesPassword(m), m.password).value;
    ReadIfWritten(WritesPassword(m), m.password, []);
    assert p + [] == p;
    ReadIfWritten(WritesUsername(m), m.username, p);
    if !WritesUsername(m) { assert s3 == p; }
  }

  /** The bytes after keep alive. */
  function PayloadBytes(m: Connect): seq<byte>
    requires Writable(m)
  {
    var id, wt, wm := WriteLP(m.clientId), WriteIf(m.WillFlag(), m.willTopic), WriteIf(m.WillFlag(), m.willMessage);
    var user, pass := WriteIf(WritesUsername(m), m.username), WriteIf(WritesPassword(m), m.password);
    id.value + (wt.value + (wm.value + (user.value + pass.value)))
  }

  /** The fixed part of a message, as read before its payload. */
  function Fixed(m: Connect): Connect {
    Connect(m.flags, m.version, m.keepAlive, [], [], [], [], [])
  }

  lemma FixedKeepsFlags(m: Connect)
    ensures GoodFlags(Fixed(m)) == GoodFlags(m)
    ensures AcceptedClientId(Fixed(m).(clientId := m.clientId)) == AcceptedClientId(m)
  {
  }

  lemma PayloadArrives(m: Connect)
    requires GoodFlags(m) && Writable(m)
    ensures AcceptedClientId(m) ==> DecodePayload(Fixed(m), PayloadBytes(m)) == Ok((Received(m), |PayloadBytes(m)|))
    ensures !AcceptedClientId(m) ==> DecodePayload(Fixed(m), PayloadBytes(m)) == Err(BadIdentifier)
  {
    hide ReadLP, WriteLP, ReadIf, WriteIf, AcceptedClientId, GoodFlags, Writable, PayloadBytes, WritesUsername;
    FixedKeepsFlags(m);
    PayloadSplit(m);
    var s := PayloadBytes(m);
    var s1 := s[2 + |m.clientId|..];
    var b := if m.WillFlag() then 2 + |m.willTopic| else 0;
    var s2 := s1[b..];
    var c := if m.WillFlag() then 2 + |m.willMessage| else 0;
    CredentialsArrive(m, s2[c..]);
  }

  /** The payload read up to the credentials. */
  lemma PayloadSplit(m: Connect)
    requires Writable(m)
    ensures WriteIf(WritesUsername(m), m.username).Ok? && WriteIf(WritesPassword(m), m.password).Ok?
    ensures var s := PayloadBytes(m);
            var a := 2 + |m.clientId|;
            && ReadLP(s) == Ok((m.clientId, a)) && a <= |s|
            && var s1 := s[a..];
            var b := if m.WillFlag() then 2 + |m.willTopic| else 0;
            && ReadIf(m.WillFlag(), s1) == Ok((if m.WillFlag() then m.willTopic else [], b)) && b <= |s1|
            && var s2 := s1[b..];
            var c := if m.WillFlag() then 2 + |m.willMessage| else 0;
            && ReadIf(m.WillFlag(), s2) == Ok((if m.WillFlag() then m.willMessage else [], c)) && c <= |s2|
            && s2[c..] == WriteIf(WritesUsername(m), m.username).value + WriteIf(WritesPassword(m), m.password).value
            && |s| == a + b + c + |s2[c..]|
  {
    WriteLPLength(m.clientId);
    hide ReadLP, WriteLP, ReadIf, WriteIf;
    ReadIfWritten(WritesUsername(m), m.username, []);
    ReadIfWritten(WritesPassword(m), m.password, []);
    ReadIfWritten(m.WillFlag(), m.willTopic, []);
    ReadIfWritten(m.WillFlag(), m.willMessage, []);
    var cred := WriteIf(WritesUsername(m), m.username).value + WriteIf(WritesPassword(m), m.password).value;
    var wm := WriteIf(m.WillFlag(), m.willMessage).value + cred;
    var wt := WriteIf(m.WillFlag(), m.willTopic).value + wm;
    LPRoundTrip(m.clientId, wt);
    ReadIfWritten(m.WillFlag(), m.willTopic, wm);
    ReadIfWritten(m.WillFlag(), m.willMessage, cred);
  }

  lemma EncodeBodyIs(m: Connect)
    requires Writable(m)
    ensures WriteLP(ProtoName(m.version)).Ok? && EncodeBody(m).Ok?
    ensures EncodeBody(m).value
         == WriteLP(ProtoName(m.version)).value + ([m.version, m.flags] + PutUint16(m.keepAlive) + PayloadBytes(m))
    ensures |EncodeBody(m).value| == MsgLen(m) && |PayloadBytes(m)| + 6 + |ProtoName(m.version)| == MsgLen(m)
  {
    WriteLPLength(ProtoName(m.version));
    WriteLPLength(m.clientId);
    hide WriteLP, WriteIf;
    ReadIfWritten(WritesUsername(m), m.username, []);
    ReadIfWritten(WritesPassword(m), m.password, []);
    ReadIfWritten(m.WillFlag(), m.willTopic, []);
    ReadIfWritten(m.WillFlag(), m.willMessage, []);
  }

  /** The body read up to the payload. */
  lemma BodySplit(m: Connect)
    requires Writable(m)
    ensures EncodeBody(m).Ok?
    ensures var s := EncodeBody(m).value;
            var n := 2 + |ProtoName(m.version)|;
            && ReadLP(s) == Ok((ProtoName(m.version), n)) && n + 4 <= |s|
            && s[n] == m.version && s[n + 1] == m.flags && Uint16(s[n + 2..]) == m.keepAlive
            && s[n + 4..] == PayloadBytes(m)
  {
    hide ReadLP, WriteLP, ProtoName, PayloadBytes, EncodeBody, Writable, Uint16, PutUint16;
    EncodeBodyIs(m);
    ProtoNameShort(m.version);
    var proto := WriteLP(ProtoName(m.version)).value;
    var tail := [m.version, m.flags] + PutUint16(m.keepAlive) + PayloadBytes(m);
    LPRoundTrip(ProtoName(m.version), tail);
    var s := proto + tail;
    var n := 2 + |ProtoName(m.version)|;
    assert s[n..] == tail;
    Uint16RoundTrip(m.keepAlive, PayloadBytes(m));
    TailParts(m.version, m.flags, PutUint16(m.keepAlive), PayloadBytes(m));
    assert s[n + 2..] == tail[2..] && s[n + 4..] == tail[4..];
    assert s[n] == tail[0] && s[n + 1] == tail[1];
  }

  lemma TailParts(a: byte, b: byte, k: seq<byte>, p: seq<byte>)
    requires |k| == 2
    ensures var t := [a, b] + k + p; t[0] == a && t[1] == b && t[2..] == k + p && t[4..] == p
  {
  }

  lemma ProtoNameShort(v: byte)
    ensures |ProtoName(v)| <= 6
  {
  }

  lemma BodyArrives(m: Connect)
    requires Writable(m)
    ensures EncodeBody(m).Ok?
    ensures DecodeBody(EncodeBody(m).value) ==
            if !GoodFlags(m) then Err(BadConnectFlags)
            else if !AcceptedClientId(m) then Err(BadIdentifier)
            else Ok((Received(m), MsgLen(m)))
  {
    hide ReadLP, WriteLP, ProtoName, PayloadBytes, EncodeBody, Uint16, DecodePayload, Received, GoodFlags;
    hide AcceptedClientId;
    BodySplit(m);
    EncodeBodyIs(m);
    FixedKeepsFlags(m);
    SameFlags(m);
    if GoodFlags(m) { PayloadArrives(m); }
  }

  lemma SameFlags(m: Connect)
    ensures GoodFlags(Connect(m.flags, m.version, 0, [], [], [], [], [])) == GoodFlags(m)
  {
  }

  /** What decoding an encoded CONNECT gives, in every case. */
  lemma EncodedArrives(m: Connect)
    requires Writable(m)
    ensures Encode(m).Ok? && |Encode(m).value| == Len(m)
    ensures Decode(Encode(m).value) ==
            if !GoodFlags(m) then Err(BadConnectFlags)
            else if !AcceptedClientId(m) then Err(BadIdentifier)
            else Ok((Received(m), Len(m)))
  {
    hide EncodeBody, DecodeBody, EncodeHeader, DecodeHeader, HeaderLen, ToInt32, Received, GoodFlags, AcceptedClientId;
    TypeByteSplits(CONNECT, DefaultFlags(CONNECT));
    HeaderEncodes(CONNECT, FirstByte(), MsgLen(m));
    EncodeBodyIs(m);
    BodyArrives(m);
    HeaderRoundTrip(CONNECT, FirstByte(), MsgLen(m), EncodeBody(m).value);
  }

  /** Messages that arrive as they were sent. */
  predicate Faithful(m: Connect) {
    && GoodFlags(m) && AcceptedClientId(m)
    && (m.WillFlag() || (m.willTopic == [] && m.willMessage == []))
    && (m.UsernameFlag() || m.username == [])
    && (m.PasswordFlag() || m.password == [])
    && !(m.UsernameFlag() && m.username == [] && m.PasswordFlag() && m.password != [])
  }

  /** The round trip holds exactly for the faithful messages. */
  lemma RoundTripExact(m: Connect)
    requires Writable(m)
    ensures Encode(m).Ok?
    ensures Decode(Encode(m).value) == Ok((m, Len(m))) <==> Faithful(m)
  {
    hide Encode, Decode, GoodFlags, AcceptedClientId;
    EncodedArrives(m);
  }

  /** With the flags for user name and password set and an empty user name, the password "p" arrives
      as the user name. */
  lemma PasswordShifts()
    ensures var m := Connect(0xc2, 4, 10, [0x73], [], [], [], [0x70]);
            && Writable(m) && Encode(m).Ok?
            && Decode(Encode(m).value) == Ok((m.(username := [0x70], password := []), Len(m)))
  {
    hide Encode, Decode, Len;
    var m := Connect(0xc2, 4, 10, [0x73], [], [], [], [0x70]);
    assert m.UsernameFlag() && m.PasswordFlag() && m.CleanSession() && !m.WillFlag();
    assert m.clientId[0] in ID_CHARS;
    EncodedArrives(m);
  }
}
