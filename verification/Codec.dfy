/** Decoding what was encoded: PUBLISH and CONNECT packets of the program's own encoders
    (src/mqtt_encode.c), SUBSCRIBE and UNSUBSCRIBE packets laid out as MQTT 3.1.1 says. */
module Codec {
  import opened Prelude
  import opened Lengths
  import opened Decoder
  import opened Encoder

  // ---------- finding things in a buffer ----------

  ghost predicate At(b: seq<Byte>, p: nat, s: seq<Byte>)
  {
    p + |s| <= |b| && forall i {:trigger s[i]} :: 0 <= i < |s| ==> b[p + i] == s[i]
  }

  lemma AtStart(b: seq<Byte>, p: nat, x: Byte, y: Byte, s: seq<Byte>)
    requires At(b, p, [x, y] + s)
    ensures p + 1 < |b| && b[p] == x && b[p + 1] == y
  {
    var all := [x, y] + s;
    assert all[0] == x && all[1] == y;
  }

  lemma AtWhole(s: seq<Byte>, t: seq<Byte>)
    ensures At(s + t, 0, s)
  {
  }

  lemma AtParts(b: seq<Byte>, p: nat, s: seq<Byte>, t: seq<Byte>)
    requires At(b, p, s + t)
    ensures At(b, p, s) && At(b, p + |s|, t)
  {
    var st := s + t;
    assert forall i :: 0 <= i < |s| ==> s[i] == st[i];
    assert forall i :: 0 <= i < |t| ==> t[i] == st[|s| + i];
  }

  lemma {:induction false} TextIsCopied(b: seq<Byte>, p: nat, s: CString)
    requires At(b, p, s)
    ensures CopyString(b, p, |s|) == Ok(s)
    decreases |s|
  {
    if s == [] {
    } else {
      assert s == [s[0]] + s[1..] && s[0] in s;
      AtParts(b, p, [s[0]], s[1..]);
      TextIsCopied(b, p + 1, s[1..]);
    }
  }

  /** The strings that survive the length coding. */
  predicate Short(s: CString)
  {
    1 <= |s| <= 127
  }

  type Name = s: CString | Short(s) witness [97]

  lemma StringIsParsed(b: seq<Byte>, p: nat, s: CString)
    requires Short(s) && At(b, p, [0, |s|] + s)
    ensures StringEncode(s) == MqttString(0, |s|, |s|, s) && StringBytes(StringEncode(s)) == [0, |s|] + s
    ensures HexToString(b, p) == Ok(Some(StringEncode(s)))
  {
    var head: seq<Byte> := [0, |s|];
    AtParts(b, p, head, s);
    AtStart(b, p, 0, |s|, s);
    TextIsCopied(b, p + 2, s);
  }

  /** A remaining length squeezed into one byte, in front of a zero byte. */
  lemma SqueezedLength(buf: seq<Byte>, n: nat)
    requires 3 <= |buf| && buf[1] == n % 256 && buf[2] == 0
    ensures n < 128 ==> RemainingFrom(buf, 1, 1, 0) == Ok((n, 1))
    ensures n >= 128 ==> RemainingFrom(buf, 1, 1, 0).Ok? && RemainingFrom(buf, 1, 1, 0).value.0 != n
  {
    if buf[1] >= 128 {
      assert RemainingFrom(buf, 1, 1, 0) == RemainingFrom(buf, 2, 128, buf[1] % 128);
    }
  }

  /** Nothing but the remaining length decides `*packet_len`. */
  lemma LengthIsRemaining(buf: seq<Byte>)
    requires Decode(buf).Ok?
    ensures RemainingFrom(buf, 1, 1, 0).Ok? && Decode(buf).value.1 == RemainingFrom(buf, 1, 1, 0).value.0 + 2
  {
  }

  /** A string that the decoder has made out: it is not empty, and a low length byte below 128 is
      its length. */
  predicate WellRead(s: MqttString)
  {
    1 <= s.len && (s.lsb < 128 ==> s.len == s.lsb)
  }

  lemma StringsAreWellRead(b: seq<Byte>, p: nat)
    ensures var o := HexToString(b, p); o.Ok? && o.value.Some? ==> WellRead(o.value.value)
  {
  }

  lemma AnnouncedAreWellRead(b: seq<Byte>, p: nat, present: bool)
    ensures var r := Announced(b, p, present); r.Ok? && r.value.0.Some? ==> WellRead(r.value.0.value)
  {
    StringsAreWellRead(b, p);
  }

  /** Of the encoder's strings only the short ones can be read like that. */
  lemma OnlyShortIsWellRead(s: CString)
    ensures WellRead(StringEncode(s)) ==> Short(s)
  {
  }

  lemma DecodedBody(buf: seq<Byte>) returns (b: seq<Byte>, n: nat)
    requires Decode(buf).Ok?
    ensures buf != [] && Create(buf[0] / 16, buf[0] % 16, b, n) == Ok(Decode(buf).value.0)
  {
    var (remaining, last) := RemainingFrom(buf, 1, 1, 0).value;
    b, n := PacketBuffer(buf, last + 1, remaining).value, remaining;
  }

  lemma DecodeIs(buf: seq<Byte>, n: nat, last: nat, b: seq<Byte>, packet: Packet)
    requires buf != [] && RemainingFrom(buf, 1, 1, 0) == Ok((n, last)) && PacketBuffer(buf, last + 1, n) == Ok(b)
    requires Create(buf[0] / 16, buf[0] % 16, b, n) == Ok(packet)
    ensures Decode(buf) == Ok((packet, n + 2))
  {
  }

  lemma DecodeRejects(buf: seq<Byte>)
    requires buf != [] && RemainingFrom(buf, 1, 1, 0) == Rejected
    ensures Decode(buf) == Rejected
  {
  }

  lemma BodyFound(first: Byte, code: seq<Byte>, body: seq<Byte>, rest: seq<Byte>)
    requires |body| > 0
    ensures PacketBuffer([first] + code + body + rest, |code| + 1, |body|) == Ok(body + [0, 0])
  {
    var buf := [first] + code + body + rest;
    assert buf[|code| + 1..|code| + 1 + |body|] == body;
  }

  lemma HeaderIsRead(first: Byte, body: seq<Byte>, rest: seq<Byte>)
    requires |body| > 0
    ensures var code := EncodeRemaining(|body|);
      var buf := [first] + code + body + rest;
      && buf[0] == first
      && RemainingFrom(buf, 1, 1, 0) == (if |body| <= 2097151 then Ok((|body|, |code|)) else Rejected)
      && PacketBuffer(buf, |code| + 1, |body|) == Ok(body + [0, 0])
  {
    var code := EncodeRemaining(|body|);
    assert [first] + code + body + rest == [first] + code + (body + rest);
    RemainingRoundTrip(first, |body|, body + rest);
    BodyFound(first, code, body, rest);
  }

  /** Any packet behind a fixed header as section 2.2 of MQTT 3.1.1 lays it out. */
  lemma PacketIsDecoded(first: Byte, body: seq<Byte>, rest: seq<Byte>, packet: Packet)
    requires |body| > 0 && Create(first / 16, first % 16, body + [0, 0], |body|) == Ok(packet)
    ensures Decode([first] + EncodeRemaining(|body|) + body + rest)
      == if |body| <= 2097151 then Ok((packet, |body| + 2)) else Rejected
  {
    var buf := [first] + EncodeRemaining(|body|) + body + rest;
    HeaderIsRead(first, body, rest);
    if |body| <= 2097151 {
      DecodeIs(buf, |body|, |EncodeRemaining(|body|)|, body + [0, 0], packet);
    } else {
      DecodeRejects(buf);
    }
  }

  /** `*packet_len` is the length of the packet exactly when the remaining length takes one byte. */
  lemma PacketLengthIsRightBelow128(first: Byte, body: seq<Byte>, rest: seq<Byte>, packet: Packet)
    requires 0 < |body| <= 2097151 && Create(first / 16, first % 16, body + [0, 0], |body|) == Ok(packet)
    ensures var wire := [first] + EncodeRemaining(|body|) + body;
      var r := Decode(wire + rest);
      r.Ok? && (r.value.1 == |wire| <==> |body| < 128)
  {
    PacketIsDecoded(first, body, rest, packet);
  }

  // ---------- PUBLISH ----------

  /** What decoding should make of an encoded PUBLISH. Above QoS 0 the payload length counts the
      packet identifier as well, and the two zero bytes behind the packet become payload. */
  function PublishedAs(topic: CString, qos: nat, id: (Byte, Byte), payload: CString): Packet
  {
    Publish(0, qos, 0, StringEncode(topic), if qos > 0 then Some(id) else None,
            payload + (if qos > 0 then [0, 0] else []))
  }

  lemma PublishBits(qos: nat)
    requires qos <= 3
    ensures 2 * Bit(2 * qos, 2) + Bit(2 * qos, 1) == qos && Bit(2 * qos, 0) == 0 && Bit(2 * qos, 3) == 0
    ensures (48 + 2 * qos) / 16 == 3 && (48 + 2 * qos) % 16 == 2 * qos
  {
  }

  lemma PublishIsParsed(topic: CString, qos: nat, id: (Byte, Byte), payload: CString, b: seq<Byte>, remaining: nat)
    requires qos <= 3 && Short(topic)
    requires b == ([0, |topic|] + topic) + (if qos > 0 then [id.0, id.1] else []) + payload + [0, 0]
    requires remaining + 2 == |b|
    ensures PublishCreate(b, 2 * qos, remaining) == Ok(PublishedAs(topic, qos, id, payload))
  {
    PublishBits(qos);
    StringIsParsed(b, 0, topic);
    var p := |topic| + 2;
    var strLen := remaining - |topic| - 2;
    if qos > 0 {
      assert b[p] == id.0 && b[p + 1] == id.1;
      assert b[p + 2..p + 2 + strLen] == payload + [0, 0];
    } else {
      assert b[p..p + strLen] == payload + [];
    }
  }

  function PublishLength(topic: CString, qos: nat, payload: CString): nat
  {
    |topic| + |payload| + (if qos > 0 then 4 else 2)
  }

  function PublishBody(topic: Name, qos: nat, id: (Byte, Byte), payload: CString): seq<Byte>
  {
    ([0, |topic|] + topic) + (if qos > 0 then [id.0, id.1] else []) + payload
  }

  lemma PublishStart(topic: Name, qos: nat, id: (Byte, Byte), payload: CString, rest: seq<Byte>)
    requires qos <= 3
    ensures var n, body := PublishLength(topic, qos, payload), PublishBody(topic, qos, id, payload);
      var buf := PublishBytes(topic, qos, id, payload) + rest;
      && buf == [48 + 2 * qos] + [n % 256] + body + rest && |body| == n
      && |buf| >= 3 && buf[0] == 48 + 2 * qos && buf[1] == n % 256 && buf[2] == 0
  {
    var name := [0, |topic|] + topic;
    assert At(name, 0, name);
    StringIsParsed(name, 0, topic);
  }

  lemma PublishIsDecoded(topic: Name, qos: nat, id: (Byte, Byte), payload: CString, rest: seq<Byte>)
    requires qos <= 3 && PublishLength(topic, qos, payload) < 128
    ensures Decode(PublishBytes(topic, qos, id, payload) + rest)
      == Ok((PublishedAs(topic, qos, id, payload), PublishLength(topic, qos, payload) + 2))
  {
    var n, body := PublishLength(topic, qos, payload), PublishBody(topic, qos, id, payload);
    var buf := PublishBytes(topic, qos, id, payload) + rest;
    PublishStart(topic, qos, id, payload, rest);
    SqueezedLength(buf, n);
    PublishBits(qos);
    BodyFound(48 + 2 * qos, [n % 256], body, rest);
    PublishIsParsed(topic, qos, id, payload, body + [0, 0], n);
    DecodeIs(buf, n, 1, body + [0, 0], PublishedAs(topic, qos, id, payload));
  }

  lemma PublishIsWellRead(b: seq<Byte>, nibble: nat, remaining: nat)
    ensures var r := PublishCreate(b, nibble, remaining); r.Ok? && r.value.Publish? ==> WellRead(r.value.topic)
  {
    StringsAreWellRead(b, 0);
  }

  lemma OnlyPublishPublishes(kind: nat, nibble: nat, b: seq<Byte>, remaining: nat)
    requires Create(kind, nibble, b, remaining).Ok? && Create(kind, nibble, b, remaining).value.Publish?
    ensures Create(kind, nibble, b, remaining) == PublishCreate(b, nibble, remaining)
  {
  }

  lemma DecodedPublish(buf: seq<Byte>)
    requires Decode(buf).Ok? && Decode(buf).value.0.Publish?
    ensures WellRead(Decode(buf).value.0.topic)
  {
    var b, n := DecodedBody(buf);
    OnlyPublishPublishes(buf[0] / 16, buf[0] % 16, b, n);
    PublishIsWellRead(b, buf[0] % 16, n);
  }

  lemma LongPublishIsNot(topic: Name, qos: nat, id: (Byte, Byte), payload: CString, rest: seq<Byte>)
    requires qos <= 3 && PublishLength(topic, qos, payload) >= 128
    ensures Decode(PublishBytes(topic, qos, id, payload) + rest)
      != Ok((PublishedAs(topic, qos, id, payload), PublishLength(topic, qos, payload) + 2))
  {
    var buf := PublishBytes(topic, qos, id, payload) + rest;
    PublishStart(topic, qos, id, payload, rest);
    SqueezedLength(buf, PublishLength(topic, qos, payload));
    if Decode(buf).Ok? {
      LengthIsRemaining(buf);
    }
  }

  /** For every topic and payload: decoding undoes encoding exactly when the topic is not empty and
      the remaining length fits into seven bits, whatever follows the packet. */
  lemma PublishRoundTrip(topic: CString, qos: nat, id: (Byte, Byte), payload: CString, rest: seq<Byte>)
    requires qos <= 3
    ensures Decode(PublishBytes(topic, qos, id, payload) + rest)
        == Ok((PublishedAs(topic, qos, id, payload), PublishLength(topic, qos, payload) + 2))
      <==> 1 <= |topic| && PublishLength(topic, qos, payload) < 128
  {
    var buf := PublishBytes(topic, qos, id, payload) + rest;
    if !Short(topic) {
      OnlyShortIsWellRead(topic);
      if Decode(buf).Ok? && Decode(buf).value.0.Publish? {
        DecodedPublish(buf);
      }
    } else if PublishLength(topic, qos, payload) < 128 {
      PublishIsDecoded(topic, qos, id, payload, rest);
    } else {
      LongPublishIsNot(topic, qos, id, payload, rest);
    }
  }

  // ---------- which packet a buffer holds ----------

  /** The control packet types of section 2.2.1 of MQTT 3.1.1 that a client may send. A CONNECT of
      another version is a packet of its own here. */
  predicate OfKind(packet: Packet, kind: nat)
  {
    match packet
    case Connect(_, _, _, _, _, _, _) => kind == 1
    case WrongVersion(_) => kind == 1
    case Publish(_, _, _, _, _, _) => kind == 3
    case Acknowledge(k, _, _) => kind == k && 4 <= kind <= 7
    case Subscribe(_, _, _) => kind == 8
    case Unsubscribe(_, _, _) => kind == 10
    case Pingreq => kind == 12
    case Disconnect => kind == 14
  }

  /** What is decoded is of the kind that the upper half of the first byte names. */
  lemma DecodedIsOfKind(buf: seq<Byte>)
    requires Decode(buf).Ok?
    ensures OfKind(Decode(buf).value.0, buf[0] / 16)
    ensures buf[0] / 16 in {1, 3, 4, 5, 6, 7, 8, 10, 12, 14}
  {
    var b, n := DecodedBody(buf);
  }

  /** A CONNECT is accepted only with the lower half of its first byte zero, the protocol name "MQTT",
      version 4 and a client id of fewer than 64 bytes; with another version it is decoded as such. */
  lemma ConnectIsChecked(buf: seq<Byte>) returns (b: seq<Byte>, name: MqttString)
    requires Decode(buf).Ok? && (Decode(buf).value.0.Connect? || Decode(buf).value.0.WrongVersion?)
    ensures buf[0] == 16 && HexToString(b, 0) == Ok(Some(name)) && name.text == [77, 81, 84, 84]
    ensures name.len + 2 < |b|
    ensures Decode(buf).value.0.Connect? ==> b[name.len + 2] == 4 && Decode(buf).value.0.clientId.len < 64
    ensures Decode(buf).value.0.WrongVersion? ==> b[name.len + 2] != 4 && Decode(buf).value.0.level == b[name.len + 2]
  {
    var n;
    b, n := DecodedBody(buf);
    OnlyConnectIsConnect(buf[0] / 16, buf[0] % 16, b, n);
    ConnectFields(b, buf[0] % 16);
    name := HexToString(b, 0).value.value;
  }

  lemma OnlyConnectIsConnect(kind: nat, nibble: nat, b: seq<Byte>, remaining: nat)
    requires var o := Create(kind, nibble, b, remaining); o.Ok? && (o.value.Connect? || o.value.WrongVersion?)
    ensures kind == 1 && Create(kind, nibble, b, remaining) == ConnectCreate(b, nibble)
  {
  }

  lemma ConnectFields(b: seq<Byte>, nibble: nat)
    requires ConnectCreate(b, nibble).Ok?
    ensures nibble == 0 && HexToString(b, 0).Ok? && HexToString(b, 0).value.Some?
    ensures var name, packet := HexToString(b, 0).value.value, ConnectCreate(b, nibble).value;
      && name.text == [77, 81, 84, 84] && name.len + 2 < |b|
      && (packet.Connect? ==> b[name.len + 2] == 4 && packet.clientId.len < 64)
      && (packet.WrongVersion? ==> b[name.len + 2] != 4 && packet.level == b[name.len + 2])
  {
  }

  /** A SUBSCRIBE is accepted only with the lower half of its first byte as section 3.8.1 says. */
  lemma SubscribeIsChecked(buf: seq<Byte>)
    requires Decode(buf).Ok? && Decode(buf).value.0.Subscribe?
    ensures buf[0] == 130
  {
    var b, n := DecodedBody(buf);
    SubscribeNibble(buf[0] / 16, buf[0] % 16, b, n);
  }

  lemma SubscribeNibble(kind: nat, nibble: nat, b: seq<Byte>, remaining: nat)
    requires Create(kind, nibble, b, remaining).Ok? && Create(kind, nibble, b, remaining).value.Subscribe?
    ensures kind == 8 && nibble == 2
  {
  }

  /** PINGREQ and DISCONNECT are two bytes long. */
  lemma PingAndDisconnectAreDecoded(rest: seq<Byte>)
    ensures Decode([192, 0] + rest) == Ok((Pingreq, 2))
    ensures Decode([224, 0] + rest) == Ok((Disconnect, 2))
  {
    var ping, bye := [192, 0] + rest, [224, 0] + rest;
    assert ping[0] == 192 && ping[1] == 0 && bye[0] == 224 && bye[1] == 0;
  }

  /** The lower half of the first byte of a PUBLISH holds RETAIN, QoS and DUP (section 3.3.1). */
  lemma PublishFlagsAreRead(buf: seq<Byte>)
    requires Decode(buf).Ok? && Decode(buf).value.0.Publish?
    ensures var p := Decode(buf).value.0;
      p.retain == buf[0] % 2 && p.qos == buf[0] / 2 % 4 && p.dup == buf[0] / 8 % 2
      && (p.id.Some? <==> p.qos > 0)
  {
    var b, n := DecodedBody(buf);
    OnlyPublishPublishes(buf[0] / 16, buf[0] % 16, b, n);
    FourBits(buf[0]);
  }

  lemma BitsOneByOne(n: nat)
    ensures Bit(n, 1) == n / 2 % 2 && Bit(n, 2) == n / 2 / 2 % 2 && Bit(n, 3) == n / 2 / 2 / 2 % 2
  {
    assert Bit(n, 2) == Bit(n / 2, 1) && Bit(n, 3) == Bit(n / 2, 2) == Bit(n / 2 / 2, 1);
  }

  lemma Halves(x: Byte, h: nat, n: nat, n1: nat, n2: nat)
    requires x == 16 * h + n && n < 16 && n1 == n / 2 && n2 == n1 / 2
    ensures x / 2 % 4 == 2 * (n2 % 2) + n1 % 2 && x / 8 % 2 == n2 / 2 % 2 && x % 2 == n % 2
  {
    assert x / 2 == 8 * h + n1 && n1 == 2 * n2 + n1 % 2;
    assert x / 8 == 2 * h + n2 / 2;
  }

  lemma FourBits(x: Byte)
    ensures var nibble := x % 16;
      && Bit(nibble, 0) == x % 2 && 2 * Bit(nibble, 2) + Bit(nibble, 1) == x / 2 % 4 && Bit(nibble, 3) == x / 8 % 2
  {
    var n := x % 16;
    BitsOneByOne(n);
    Halves(x, x / 16, n, n / 2, n / 2 / 2);
  }

  // ---------- CONNECT ----------

  /** The string as the decoder makes it out. */
  function Parsed(s: CString, present: bool): Option<MqttString>
  {
    if present then Some(StringEncode(s)) else None
  }

  /** What decoding should make of an encoded CONNECT: every string under the name it was given. */
  function ConnectedAs(c: ConnectRequest): Packet
  {
    Connect(c.flags, c.KeepBytes().0, c.KeepBytes().1, StringEncode(c.clientId),
            if Bit(c.flags, 2) == 1 then Some((StringEncode(c.willTopic), StringEncode(c.willMessage))) else None,
            Parsed(c.userName, Bit(c.flags, 6) == 1), Parsed(c.password, Bit(c.flags, 7) == 1))
  }

  /** The keep-alive time is sent as section 3.1.2.10 of MQTT 3.1.1 asks exactly below 128 seconds;
      from 16384 seconds on it is replaced by one minute. */
  lemma KeepAliveIsRightBelow128(c: ConnectRequest)
    ensures 256 * c.KeepBytes().0 + c.KeepBytes().1 == c.keepAlive <==> c.keepAlive < 128
    ensures c.keepAlive >= 16384 ==> c.KeepBytes() == (0, 60)
    ensures c.keepAlive < 16384 ==> c.KeepBytes() == MLBytes(c.keepAlive)
  {
  }

  /** The strings that are sent are neither empty nor too long. */
  predicate Sendable(c: ConnectRequest)
  {
    && Short(c.clientId) && |c.clientId| < 64
    && (Bit(c.flags, 2) == 1 ==> Short(c.willTopic) && Short(c.willMessage))
    && (Bit(c.flags, 6) == 1 ==> Short(c.userName))
    && (Bit(c.flags, 7) == 1 ==> Short(c.password))
  }

  function IfPresent(s: CString, present: bool): seq<Byte>
  {
    if present then StringBytes(StringEncode(s)) else []
  }

  lemma AnnouncedIsParsed(b: seq<Byte>, p: nat, s: CString, present: bool, more: seq<Byte>)
    requires (present ==> Short(s)) && At(b, p, IfPresent(s, present) + more)
    ensures Announced(b, p, present) == Ok((Parsed(s, present), p + |IfPresent(s, present)|))
    ensures At(b, p + |IfPresent(s, present)|, more)
  {
    AtParts(b, p, IfPresent(s, present), more);
    if present {
      var name := [0, |s|] + s;
      assert At(name, 0, name);
      StringIsParsed(name, 0, s);
      StringIsParsed(b, p, s);
    }
  }

  /** The announced strings in the order in which both sides handle them. */
  function Tail(c: ConnectRequest, w: bool, u: bool): seq<Byte>
  {
    IfPresent(c.willTopic, w)
    + (IfPresent(c.willMessage, w) + (IfPresent(c.userName, u) + (IfPresent(c.password, u) + [])))
  }

  lemma PayloadIs(b: seq<Byte>, p: nat, p1: nat, p2: nat, p3: nat, p4: nat, flags: Byte, keep: (Byte, Byte),
                  id: MqttString, topic: Option<MqttString>, message: Option<MqttString>,
                  user: Option<MqttString>, password: Option<MqttString>)
    requires Announced(b, p, Bit(flags, 2) == 1) == Ok((topic, p1))
    requires Announced(b, p1, Bit(flags, 2) == 1) == Ok((message, p2))
    requires Announced(b, p2, Bit(flags, 7) == 1) == Ok((user, p3))
    requires Announced(b, p3, Bit(flags, 6) == 1) == Ok((password, p4))
    ensures ConnectPayload(b, p, flags, keep.0, keep.1, id)
      == Ok(Connect(flags, keep.0, keep.1, id,
                    if topic.Some? && message.Some? then Some((topic.value, message.value)) else None, user, password))
  {
  }

  lemma CredentialsAreParsed(c: ConnectRequest, b: seq<Byte>, p: nat, u: bool)
    requires u ==> Short(c.userName) && Short(c.password)
    requires At(b, p, IfPresent(c.userName, u) + (IfPresent(c.password, u) + []))
    ensures var p' := p + |IfPresent(c.userName, u)|;
      && Announced(b, p, u) == Ok((Parsed(c.userName, u), p'))
      && Announced(b, p', u) == Ok((Parsed(c.password, u), p' + |IfPresent(c.password, u)|))
  {
    AnnouncedIsParsed(b, p, c.userName, u, IfPresent(c.password, u) + []);
    AnnouncedIsParsed(b, p + |IfPresent(c.userName, u)|, c.password, u, []);
  }

  lemma WillIsParsed(c: ConnectRequest, b: seq<Byte>, p: nat, w: bool, more: seq<Byte>)
    requires w ==> Short(c.willTopic) && Short(c.willMessage)
    requires At(b, p, IfPresent(c.willTopic, w) + (IfPresent(c.willMessage, w) + more))
    ensures var p' := p + |IfPresent(c.willTopic, w)|;
      && Announced(b, p, w) == Ok((Parsed(c.willTopic, w), p'))
      && Announced(b, p', w) == Ok((Parsed(c.willMessage, w), p' + |IfPresent(c.willMessage, w)|))
      && At(b, p' + |IfPresent(c.willMessage, w)|, more)
  {
    AnnouncedIsParsed(b, p, c.willTopic, w, IfPresent(c.willMessage, w) + more);
    AnnouncedIsParsed(b, p + |IfPresent(c.willTopic, w)|, c.willMessage, w, more);
  }

  lemma RestIsParsed(c: ConnectRequest, b: seq<Byte>, p: nat, w: bool, u: bool)
    requires w == (Bit(c.flags, 2) == 1) && u == (Bit(c.flags, 6) == 1) && u == (Bit(c.flags, 7) == 1)
    requires (w ==> Short(c.willTopic) && Short(c.willMessage)) && (u ==> Short(c.userName) && Short(c.password))
    requires At(b, p, Tail(c, w, u))
    ensures ConnectPayload(b, p, c.flags, c.KeepBytes().0, c.KeepBytes().1, StringEncode(c.clientId))
         == Ok(ConnectedAs(c))
  {
    hide Announced, StringEncode, ConnectPayload, Short, IfPresent, At;
    var p1 := p + |IfPresent(c.willTopic, w)|;
    var p2 := p1 + |IfPresent(c.willMessage, w)|;
    var p3 := p2 + |IfPresent(c.userName, u)|;
    WillIsParsed(c, b, p, w, IfPresent(c.userName, u) + (IfPresent(c.password, u) + []));
    CredentialsAreParsed(c, b, p2, u);
    PayloadIs(b, p, p1, p2, p3, p3 + |IfPresent(c.password, u)|, c.flags, c.KeepBytes(), StringEncode(c.clientId),
              Parsed(c.willTopic, w), Parsed(c.willMessage, w), Parsed(c.userName, u), Parsed(c.password, u));
  }

  lemma BodyIs(c: ConnectRequest)
    requires Sendable(c) && Bit(c.flags, 6) == Bit(c.flags, 7)
    ensures var h := [0, 4] + PROTOCOL_NAME + [4, c.flags, c.KeepBytes().0, c.KeepBytes().1];
      var id := [0, |c.clientId|] + c.clientId;
      c.Body() == h + (id + Tail(c, Bit(c.flags, 2) == 1, Bit(c.flags, 6) == 1))
  {
    var id := [0, |c.clientId|] + c.clientId;
    assert At(id, 0, id);
    StringIsParsed(id, 0, c.clientId);
  }

  /** The fixed part of the variable header. */
  lemma HeaderIsParsed(b: seq<Byte>, flags: Byte, keep: (Byte, Byte))
    requires At(b, 0, [0, 4] + PROTOCOL_NAME + [4, flags, keep.0, keep.1])
    ensures HexToString(b, 0) == Ok(Some(MqttString(0, 4, 4, PROTOCOL_NAME)))
    ensures |b| >= 10 && b[6] == 4 && b[7] == flags && b[8] == keep.0 && b[9] == keep.1
  {
    AtParts(b, 0, [0, 4] + PROTOCOL_NAME, [4, flags, keep.0, keep.1]);
    StringIsParsed(b, 0, PROTOCOL_NAME);
    var h := [4, flags, keep.0, keep.1];
    assert b[6] == h[0] && b[7] == h[1] && b[8] == h[2] && b[9] == h[3];
  }

  lemma ConnectIs(b: seq<Byte>, flags: Byte, keep: (Byte, Byte), id: MqttString, packet: Packet)
    requires At(b, 0, [0, 4] + PROTOCOL_NAME + [4, flags, keep.0, keep.1])
    requires HexToString(b, 10) == Ok(Some(id)) && id.len < 64
    requires ConnectPayload(b, 12 + id.len, flags, keep.0, keep.1, id) == Ok(packet)
    ensures ConnectCreate(b, 0) == Ok(packet)
  {
    HeaderIsParsed(b, flags, keep);
  }

  lemma ThreeParts(b: seq<Byte>, x: seq<Byte>, y: seq<Byte>, z: seq<Byte>, t: seq<Byte>)
    requires b == x + (y + z) + t
    ensures At(b, 0, x) && At(b, |x|, y) && At(b, |x| + |y|, z)
  {
    AtWhole(x + (y + z), t);
    AtParts(b, 0, x, y + z);
    AtParts(b, |x|, y, z);
  }

  lemma BodyAt(c: ConnectRequest, b: seq<Byte>)
    requires Sendable(c) && Bit(c.flags, 6) == Bit(c.flags, 7) && b == c.Body() + [0, 0]
    ensures At(b, 0, [0, 4] + PROTOCOL_NAME + [4, c.flags, c.KeepBytes().0, c.KeepBytes().1])
    ensures At(b, 10, [0, |c.clientId|] + c.clientId)
    ensures At(b, 12 + |c.clientId|, Tail(c, Bit(c.flags, 2) == 1, Bit(c.flags, 6) == 1))
  {
    BodyIs(c);
    ThreeParts(b, [0, 4] + PROTOCOL_NAME + [4, c.flags, c.KeepBytes().0, c.KeepBytes().1],
               [0, |c.clientId|] + c.clientId,
               Tail(c, Bit(c.flags, 2) == 1, Bit(c.flags, 6) == 1), [0, 0]);
  }

  lemma ConnectIsParsed(c: ConnectRequest, b: seq<Byte>)
    requires Sendable(c) && Bit(c.flags, 6) == Bit(c.flags, 7) && b == c.Body() + [0, 0]
    ensures ConnectCreate(b, 0) == Ok(ConnectedAs(c))
  {
    BodyAt(c, b);
    StringIsParsed(b, 10, c.clientId);
    RestIsParsed(c, b, 12 + |c.clientId|, Bit(c.flags, 2) == 1, Bit(c.flags, 6) == 1);
    ConnectIs(b, c.flags, c.KeepBytes(), StringEncode(c.clientId), ConnectedAs(c));
  }

  /** The decoder takes bit 7 for the user name. */
  lemma PayloadUserIsBit7(b: seq<Byte>, p: nat, flags: Byte, keep: (Byte, Byte), id: MqttString)
    ensures var r := ConnectPayload(b, p, flags, keep.0, keep.1, id);
      r.Ok? ==> r.value.Connect? && r.value.flags == flags && (r.value.user.Some? <==> Bit(flags, 7) == 1)
  {
  }

  /** What a CONNECT packet was read from. */
  lemma ConnectParts(b: seq<Byte>, nibble: nat) returns (p: nat, id: MqttString)
    requires ConnectCreate(b, nibble).Ok? && ConnectCreate(b, nibble).value.Connect?
    ensures p + 3 < |b| && HexToString(b, p + 4) == Ok(Some(id)) && id.len < 64
    ensures ConnectPayload(b, p + 6 + id.len, b[p + 1], b[p + 2], b[p + 3], id) == ConnectCreate(b, nibble)
  {
    p := HexToString(b, 0).value.value.len + 2;
    id := HexToString(b, p + 4).value.value;
  }

  lemma ConnectUserIsBit7(b: seq<Byte>, nibble: nat)
    ensures var r := ConnectCreate(b, nibble);
      r.Ok? && r.value.Connect? ==> (r.value.user.Some? <==> Bit(r.value.flags, 7) == 1)
  {
    if ConnectCreate(b, nibble).Ok? && ConnectCreate(b, nibble).value.Connect? {
      var p, id := ConnectParts(b, nibble);
      PayloadUserIsBit7(b, p + 6 + id.len, b[p + 1], (b[p + 2], b[p + 3]), id);
    }
  }

  lemma OnlyConnectConnects(kind: nat, nibble: nat, b: seq<Byte>, remaining: nat)
    requires Create(kind, nibble, b, remaining).Ok? && Create(kind, nibble, b, remaining).value.Connect?
    ensures Create(kind, nibble, b, remaining) == ConnectCreate(b, nibble)
  {
  }

  lemma DecodedConnect(buf: seq<Byte>) returns (b: seq<Byte>)
    requires Decode(buf).Ok? && Decode(buf).value.0.Connect?
    ensures ConnectCreate(b, buf[0] % 16) == Ok(Decode(buf).value.0)
  {
    var n;
    b, n := DecodedBody(buf);
    OnlyConnectConnects(buf[0] / 16, buf[0] % 16, b, n);
  }

  lemma ConnectStart(c: ConnectRequest, rest: seq<Byte>)
    ensures var buf, n := ConnectBytes(c) + rest, |c.Body()|;
      |buf| >= 3 && buf[0] == 16 && buf[1] == n % 256 && buf[2] == 0 && buf == [16] + [n % 256] + c.Body() + rest
  {
  }

  lemma ConnectIsDecoded(c: ConnectRequest, rest: seq<Byte>)
    requires Sendable(c) && |c.Body()| < 128 && Bit(c.flags, 6) == Bit(c.flags, 7)
    ensures Decode(ConnectBytes(c) + rest) == Ok((ConnectedAs(c), |c.Body()| + 2))
  {
    var n, buf := |c.Body()|, ConnectBytes(c) + rest;
    ConnectStart(c, rest);
    SqueezedLength(buf, n);
    BodyFound(16, [n % 256], c.Body(), rest);
    ConnectIsParsed(c, c.Body() + [0, 0]);
    DecodeIs(buf, n, 1, c.Body() + [0, 0], ConnectedAs(c));
  }

  lemma LongConnectIsNot(c: ConnectRequest, rest: seq<Byte>)
    requires |c.Body()| >= 128
    ensures Decode(ConnectBytes(c) + rest) != Ok((ConnectedAs(c), |c.Body()| + 2))
  {
    var buf := ConnectBytes(c) + rest;
    ConnectStart(c, rest);
    SqueezedLength(buf, |c.Body()|);
    if Decode(buf).Ok? {
      LengthIsRemaining(buf);
    }
  }

  lemma UnequalFlagsAreNot(c: ConnectRequest, buf: seq<Byte>, n: nat)
    requires Bit(c.flags, 6) != Bit(c.flags, 7)
    ensures Decode(buf) != Ok((ConnectedAs(c), n))
  {
    if Decode(buf) == Ok((ConnectedAs(c), n)) {
      var b := DecodedConnect(buf);
      ConnectUserIsBit7(b, buf[0] % 16);
    }
  }

  lemma PayloadIsWellRead(b: seq<Byte>, p: nat, flags: Byte, keep: (Byte, Byte), id: MqttString)
    requires ConnectPayload(b, p, flags, keep.0, keep.1, id).Ok?
    ensures var r := ConnectPayload(b, p, flags, keep.0, keep.1, id).value;
      && r.Connect? && r.clientId == id
      && (r.will.Some? ==> WellRead(r.will.value.0) && WellRead(r.will.value.1))
      && (r.user.Some? ==> WellRead(r.user.value)) && (r.password.Some? ==> WellRead(r.password.value))
  {
    var p1 := Announced(b, p, Bit(flags, 2) == 1).value.1;
    var p2 := Announced(b, p1, Bit(flags, 2) == 1).value.1;
    var p3 := Announced(b, p2, Bit(flags, 7) == 1).value.1;
    AnnouncedAreWellRead(b, p, Bit(flags, 2) == 1);
    AnnouncedAreWellRead(b, p1, Bit(flags, 2) == 1);
    AnnouncedAreWellRead(b, p2, Bit(flags, 7) == 1);
    AnnouncedAreWellRead(b, p3, Bit(flags, 6) == 1);
  }

  lemma ConnectIsWellRead(b: seq<Byte>, nibble: nat)
    requires ConnectCreate(b, nibble).Ok? && ConnectCreate(b, nibble).value.Connect?
    ensures var r := ConnectCreate(b, nibble).value;
      && WellRead(r.clientId) && r.clientId.len < 64
      && (r.will.Some? ==> WellRead(r.will.value.0) && WellRead(r.will.value.1))
      && (r.user.Some? ==> WellRead(r.user.value)) && (r.password.Some? ==> WellRead(r.password.value))
  {
    var p, id := ConnectParts(b, nibble);
    StringsAreWellRead(b, p + 4);
    PayloadIsWellRead(b, p + 6 + id.len, b[p + 1], (b[p + 2], b[p + 3]), id);
  }

  lemma OnlySendableIsDecoded(c: ConnectRequest, buf: seq<Byte>, n: nat)
    requires !Sendable(c)
    ensures Decode(buf) != Ok((ConnectedAs(c), n))
  {
    OnlyShortIsWellRead(c.clientId);
    OnlyShortIsWellRead(c.willTopic);
    OnlyShortIsWellRead(c.willMessage);
    OnlyShortIsWellRead(c.userName);
    OnlyShortIsWellRead(c.password);
    if Decode(buf) == Ok((ConnectedAs(c), n)) {
      var b := DecodedConnect(buf);
      ConnectIsWellRead(b, buf[0] % 16);
    }
  }

  lemma ConnectOnlyIf(c: ConnectRequest, rest: seq<Byte>)
    requires Decode(ConnectBytes(c) + rest) == Ok((ConnectedAs(c), |c.Body()| + 2))
    ensures Sendable(c) && |c.Body()| < 128 && Bit(c.flags, 6) == Bit(c.flags, 7)
  {
    if !Sendable(c) {
      OnlySendableIsDecoded(c, ConnectBytes(c) + rest, |c.Body()| + 2);
    }
    if |c.Body()| >= 128 {
      LongConnectIsNot(c, rest);
    }
    if Bit(c.flags, 6) != Bit(c.flags, 7) {
      UnequalFlagsAreNot(c, ConnectBytes(c) + rest, |c.Body()| + 2);
    }
  }

  /** For every request: decoding undoes encoding exactly when the strings sent are neither empty nor
      too long, the remaining length fits into seven bits, and the user name and password flags,
      which encoder and decoder read the other way round, are equal. */
  lemma ConnectRoundTrip(c: ConnectRequest, rest: seq<Byte>)
    ensures Decode(ConnectBytes(c) + rest) == Ok((ConnectedAs(c), |c.Body()| + 2))
      <==> Sendable(c) && |c.Body()| < 128 && Bit(c.flags, 6) == Bit(c.flags, 7)
  {
    if Decode(ConnectBytes(c) + rest) == Ok((ConnectedAs(c), |c.Body()| + 2)) {
      ConnectOnlyIf(c, rest);
    } else if Sendable(c) && |c.Body()| < 128 && Bit(c.flags, 6) == Bit(c.flags, 7) {
      ConnectIsDecoded(c, rest);
    }
  }

  // ---------- SUBSCRIBE and UNSUBSCRIBE ----------

  /** A string that its two-byte length can describe (section 1.5.3 of MQTT 3.1.1). */
  type Field = s: CString | |s| < 65536 witness []

  function NameBytes(f: Field): seq<Byte>
  {
    [|f| / 256, |f| % 256] + f
  }

  /** The string as a right decoder makes it out. */
  function Understood(f: Field): MqttString
  {
    MqttString(|f| / 256, |f| % 256, |f|, f)
  }

  /** The payload of a SUBSCRIBE packet (section 3.8.3 of MQTT 3.1.1). */
  function SubscribePayload(list: seq<(Field, Byte)>): seq<Byte>
  {
    if list == [] then []
    else NameBytes(list[0].0) + ([list[0].1] + SubscribePayload(list[1..]))
  }

  function AsFilters(list: seq<(Field, Byte)>): seq<Filter>
  {
    seq(|list|, i requires 0 <= i < |list| => Filter(Understood(list[i].0), list[i].1))
  }

  predicate AllShort(list: seq<(Field, Byte)>)
  {
    forall i :: 0 <= i < |list| ==> Short(list[i].0)
  }

  lemma NameIsParsed(b: seq<Byte>, p: nat, f: Field, more: seq<Byte>)
    requires Short(f) && At(b, p, NameBytes(f) + more)
    ensures HexToString(b, p) == Ok(Some(Understood(f)))
    ensures More(b, p) == Ok(true) && StringLen(b, p) == Ok(|f|) && At(b, p + |f| + 2, more)
  {
    AtParts(b, p, NameBytes(f), more);
    StringIsParsed(b, p, f);
    AtStart(b, p, 0, |f|, f);
  }

  lemma FilterIsParsed(b: seq<Byte>, p: nat, f: Field, qos: Byte, more: seq<Byte>)
    requires Short(f) && At(b, p, NameBytes(f) + ([qos] + more))
    ensures More(b, p) == Ok(true) && StringLen(b, p) == Ok(|f|)
    ensures FilterAt(b, p) == Ok(Filter(Understood(f), qos))
    ensures At(b, p + |f| + 3, more)
  {
    NameIsParsed(b, p, f, [qos] + more);
    AtParts(b, p + |f| + 2, [qos], more);
    assert b[p + |f| + 2] == [qos][0];
  }

  lemma ZerosEnd(b: seq<Byte>, p: nat)
    requires At(b, p, [0, 0])
    ensures More(b, p) == Ok(false)
  {
    AtStart(b, p, 0, 0, []);
  }

  lemma OneMoreFilter(b: seq<Byte>, p: nat, f: Filter, rest: seq<Filter>, n: nat)
    requires More(b, p) == Ok(true) && StringLen(b, p) == Ok(f.name.len) && FilterAt(b, p) == Ok(f)
    requires FiltersFrom(b, p + f.name.len + 3) == Ok(rest) && CountFilters(b, p + f.name.len + 3) == Ok(n)
    ensures FiltersFrom(b, p) == Ok([f] + rest) && CountFilters(b, p) == Ok(n + 1)
  {
  }

  lemma OneMoreName(b: seq<Byte>, p: nat, name: MqttString, rest: seq<MqttString>, n: nat, used: nat, limit: nat)
    requires More(b, p) == Ok(true) && StringLen(b, p) == Ok(name.len) && HexToString(b, p) == Ok(Some(name))
    requires NamesFrom(b, p + name.len + 2, n) == Ok(rest)
    requires used + name.len + 2 <= limit && CountNames(b, p + name.len + 2, used + name.len + 2, limit) == Ok(n)
    ensures NamesFrom(b, p, n + 1) == Ok([name] + rest) && CountNames(b, p, used, limit) == Ok(n + 1)
  {
  }

  lemma FirstFilter(list: seq<(Field, Byte)>)
    requires list != []
    ensures var (f, qos) := list[0];
      && SubscribePayload(list) + [0, 0] == NameBytes(f) + ([qos] + (SubscribePayload(list[1..]) + [0, 0]))
      && AsFilters(list) == [Filter(Understood(f), qos)] + AsFilters(list[1..])
  {
    var (f, qos) := list[0];
    var rest := SubscribePayload(list[1..]);
    assert (NameBytes(f) + ([qos] + rest)) + [0, 0] == NameBytes(f) + ([qos] + (rest + [0, 0]));
  }

  lemma {:induction false} FiltersAreParsed(list: seq<(Field, Byte)>, b: seq<Byte>, p: nat)
    requires AllShort(list) && At(b, p, SubscribePayload(list) + [0, 0])
    ensures FiltersFrom(b, p) == Ok(AsFilters(list)) && CountFilters(b, p) == Ok(|list|)
    decreases |list|
  {
    if list == [] {
      assert SubscribePayload(list) + [0, 0] == [0, 0] && AsFilters(list) == [];
      ZerosEnd(b, p);
    } else {
      hide FiltersFrom, CountFilters, SubscribePayload, StringLen, HexToString;
      var (f, qos) := list[0];
      var more := SubscribePayload(list[1..]) + [0, 0];
      FirstFilter(list);
      FilterIsParsed(b, p, f, qos, more);
      FiltersAreParsed(list[1..], b, p + |f| + 3);
      OneMoreFilter(b, p, Filter(Understood(f), qos), AsFilters(list[1..]), |list| - 1);
    }
  }

  /** A packet laid out as in sections 2.2 and 3.8 of MQTT 3.1.1. */
  function SubscribeBytes(id: (Byte, Byte), list: seq<(Field, Byte)>): seq<Byte>
  {
    var body := [id.0, id.1] + SubscribePayload(list);
    [130] + EncodeRemaining(|body|) + body
  }

  lemma SubscribeIsParsed(b: seq<Byte>, id: (Byte, Byte), filters: seq<Filter>, n: nat)
    requires |b| >= 2 && b[0] == id.0 && b[1] == id.1 && CountFilters(b, 2) == Ok(n) && FiltersFrom(b, 2) == Ok(filters)
    ensures SubscribeCreate(b, 2) == Ok(Subscribe(id.0, id.1, filters))
  {
  }

  lemma UnsubscribeIsParsed(b: seq<Byte>, id: (Byte, Byte), names: seq<MqttString>, n: nat, remaining: nat)
    requires |b| >= 2 && b[0] == id.0 && b[1] == id.1
    requires CountNames(b, 2, 0, remaining - 2) == Ok(n) && NamesFrom(b, 2, n) == Ok(names)
    ensures UnsubscribeCreate(b, remaining) == Ok(Unsubscribe(id.0, id.1, names))
  {
  }

  lemma ShortSubscribeIsDecoded(id: (Byte, Byte), list: seq<(Field, Byte)>, rest: seq<Byte>)
    requires AllShort(list) && 2 + |SubscribePayload(list)| <= 2097151
    ensures Decode(SubscribeBytes(id, list) + rest)
         == Ok((Subscribe(id.0, id.1, AsFilters(list)), |SubscribePayload(list)| + 4))
  {
    var payload := SubscribePayload(list);
    var b := [id.0, id.1] + payload + [0, 0];
    TwoBytes(id.0, id.1, payload);
    FiltersAreParsed(list, b, 2);
    SubscribeIsParsed(b, id, AsFilters(list), |list|);
    PacketIsDecoded(130, [id.0, id.1] + payload, rest, Subscribe(id.0, id.1, AsFilters(list)));
  }

  lemma LongBodyIsRejected(first: Byte, body: seq<Byte>, rest: seq<Byte>)
    requires |body| > 2097151
    ensures Decode([first] + EncodeRemaining(|body|) + body + rest) == Rejected
  {
    HeaderIsRead(first, body, rest);
    DecodeRejects([first] + EncodeRemaining(|body|) + body + rest);
  }

  /** A string the decoder has made out is not empty, and has the length that its two bytes say only
      if that is below 128. */
  predicate Plausible(s: MqttString)
  {
    1 <= s.len && (s.len == 256 * s.msb + s.lsb ==> s.len < 128)
  }

  lemma StringsArePlausible(b: seq<Byte>, p: nat)
    ensures var o := HexToString(b, p); o.Ok? && o.value.Some? ==> Plausible(o.value.value)
  {
    if p + 1 < |b| {
      StringLenIsRightBelow128(b, p);
    }
  }

  lemma {:induction false} FiltersArePlausible(b: seq<Byte>, p: nat)
    ensures var r := FiltersFrom(b, p); r.Ok? ==> forall f :: f in r.value ==> Plausible(f.name)
    decreases |b| - p
  {
    if More(b, p) != Ok(true) || !FilterAt(b, p).Ok? {
    } else {
      StringsArePlausible(b, p);
      FiltersArePlausible(b, p + FilterAt(b, p).value.name.len + 3);
    }
  }

  lemma OnlySubscribeSubscribes(kind: nat, nibble: nat, b: seq<Byte>, remaining: nat)
    requires Create(kind, nibble, b, remaining).Ok? && Create(kind, nibble, b, remaining).value.Subscribe?
    ensures FiltersFrom(b, 2) == Ok(Create(kind, nibble, b, remaining).value.filters)
  {
  }

  lemma DecodedFiltersArePlausible(buf: seq<Byte>)
    requires Decode(buf).Ok? && Decode(buf).value.0.Subscribe?
    ensures forall f :: f in Decode(buf).value.0.filters ==> Plausible(f.name)
  {
    var b, n := DecodedBody(buf);
    OnlySubscribeSubscribes(buf[0] / 16, buf[0] % 16, b, n);
    FiltersArePlausible(b, 2);
  }

  lemma PlausibleFiltersAreShort(list: seq<(Field, Byte)>)
    requires forall f :: f in AsFilters(list) ==> Plausible(f.name)
    ensures AllShort(list)
  {
    forall i | 0 <= i < |list|
      ensures Short(list[i].0)
    {
      assert AsFilters(list)[i] in AsFilters(list);
    }
  }

  /** A SUBSCRIBE packet is decoded to its filters, in order, exactly when each has 1 to 127 bytes and
      the remaining length takes at most three bytes; with a longer one the packet is rejected. */
  lemma SubscribeIsDecoded(id: (Byte, Byte), list: seq<(Field, Byte)>, rest: seq<Byte>)
    ensures var remaining := 2 + |SubscribePayload(list)|;
      && (Decode(SubscribeBytes(id, list) + rest) == Ok((Subscribe(id.0, id.1, AsFilters(list)), remaining + 2))
          <==> AllShort(list) && remaining <= 2097151)
      && (remaining > 2097151 ==> Decode(SubscribeBytes(id, list) + rest) == Rejected)
  {
    var buf := SubscribeBytes(id, list) + rest;
    if 2 + |SubscribePayload(list)| > 2097151 {
      LongBodyIsRejected(130, [id.0, id.1] + SubscribePayload(list), rest);
    } else if AllShort(list) {
      ShortSubscribeIsDecoded(id, list, rest);
    } else if Decode(buf).Ok? && Decode(buf).value.0 == Subscribe(id.0, id.1, AsFilters(list)) {
      DecodedFiltersArePlausible(buf);
      PlausibleFiltersAreShort(list);
    }
  }

  /** The payload of an UNSUBSCRIBE packet (section 3.10.3 of MQTT 3.1.1). */
  function UnsubscribePayload(list: seq<Field>): seq<Byte>
  {
    if list == [] then []
    else NameBytes(list[0]) + UnsubscribePayload(list[1..])
  }

  function AsNames(list: seq<Field>): seq<MqttString>
  {
    seq(|list|, i requires 0 <= i < |list| => Understood(list[i]))
  }

  predicate NamesShort(list: seq<Field>)
  {
    forall i :: 0 <= i < |list| ==> Short(list[i])
  }

  lemma FirstName(list: seq<Field>)
    requires list != []
    ensures UnsubscribePayload(list) + [0, 0] == NameBytes(list[0]) + (UnsubscribePayload(list[1..]) + [0, 0])
    ensures |UnsubscribePayload(list)| == |list[0]| + 2 + |UnsubscribePayload(list[1..])|
    ensures AsNames(list) == [Understood(list[0])] + AsNames(list[1..])
  {
    var names := UnsubscribePayload(list[1..]);
    assert UnsubscribePayload(list) == NameBytes(list[0]) + names;
    assert (NameBytes(list[0]) + names) + [0, 0] == NameBytes(list[0]) + (names + [0, 0]);
  }

  lemma TwoBytes(x: Byte, y: Byte, s: seq<Byte>)
    ensures var b := [x, y] + s + [0, 0]; b[0] == x && b[1] == y && At(b, 2, s + [0, 0])
  {
    var b := [x, y] + s + [0, 0];
  }

  lemma {:induction false} NamesAreParsed(list: seq<Field>, b: seq<Byte>, p: nat, used: nat, limit: nat)
    requires NamesShort(list) && At(b, p, UnsubscribePayload(list) + [0, 0])
    requires used + |UnsubscribePayload(list)| <= limit
    ensures CountNames(b, p, used, limit) == Ok(|list|) && NamesFrom(b, p, |list|) == Ok(AsNames(list))
    decreases |list|
  {
    if list == [] {
      assert UnsubscribePayload(list) + [0, 0] == [0, 0] && AsNames(list) == [];
      ZerosEnd(b, p);
    } else {
      hide NamesFrom, CountNames, UnsubscribePayload, StringLen, HexToString;
      var f := list[0];
      var more := UnsubscribePayload(list[1..]) + [0, 0];
      FirstName(list);
      NameIsParsed(b, p, f, more);
      NamesAreParsed(list[1..], b, p + |f| + 2, used + |f| + 2, limit);
      OneMoreName(b, p, Understood(f), AsNames(list[1..]), |list| - 1, used, limit);
    }
  }

  function UnsubscribeBytes(id: (Byte, Byte), list: seq<Field>): seq<Byte>
  {
    var body := [id.0, id.1] + UnsubscribePayload(list);
    [162] + EncodeRemaining(|body|) + body
  }

  lemma UnsubscribeBody(id: (Byte, Byte), list: seq<Field>)
    requires NamesShort(list)
    ensures var payload := UnsubscribePayload(list);
      UnsubscribeCreate([id.0, id.1] + payload + [0, 0], |payload| + 2) == Ok(Unsubscribe(id.0, id.1, AsNames(list)))
  {
    var payload := UnsubscribePayload(list);
    var b := [id.0, id.1] + payload + [0, 0];
    TwoBytes(id.0, id.1, payload);
    NamesAreParsed(list, b, 2, 0, |payload|);
    UnsubscribeIsParsed(b, id, AsNames(list), |list|, |payload| + 2);
  }

  lemma {:induction false} NamesArePlausible(b: seq<Byte>, p: nat, n: nat)
    ensures var r := NamesFrom(b, p, n); r.Ok? ==> forall s :: s in r.value ==> Plausible(s)
    decreases n
  {
    if n == 0 || !HexToString(b, p).Ok? || HexToString(b, p).value.None? {
    } else {
      StringsArePlausible(b, p);
      NamesArePlausible(b, p + HexToString(b, p).value.value.len + 2, n - 1);
    }
  }

  lemma OnlyUnsubscribeUnsubscribes(kind: nat, nibble: nat, b: seq<Byte>, remaining: nat) returns (n: nat)
    requires Create(kind, nibble, b, remaining).Ok? && Create(kind, nibble, b, remaining).value.Unsubscribe?
    ensures NamesFrom(b, 2, n) == Ok(Create(kind, nibble, b, remaining).value.names)
  {
    n :| NamesFrom(b, 2, n) == Ok(Create(kind, nibble, b, remaining).value.names);
  }

  lemma DecodedNamesArePlausible(buf: seq<Byte>)
    requires Decode(buf).Ok? && Decode(buf).value.0.Unsubscribe?
    ensures forall s :: s in Decode(buf).value.0.names ==> Plausible(s)
  {
    var b, remaining := DecodedBody(buf);
    var n := OnlyUnsubscribeUnsubscribes(buf[0] / 16, buf[0] % 16, b, remaining);
    NamesArePlausible(b, 2, n);
  }

  lemma PlausibleNamesAreShort(list: seq<Field>)
    requires forall s :: s in AsNames(list) ==> Plausible(s)
    ensures NamesShort(list)
  {
    forall i | 0 <= i < |list|
      ensures Short(list[i])
    {
      assert AsNames(list)[i] in AsNames(list);
    }
  }

  /** The same for UNSUBSCRIBE. */
  lemma UnsubscribeIsDecoded(id: (Byte, Byte), list: seq<Field>, rest: seq<Byte>)
    ensures var remaining := 2 + |UnsubscribePayload(list)|;
      && (Decode(UnsubscribeBytes(id, list) + rest) == Ok((Unsubscribe(id.0, id.1, AsNames(list)), remaining + 2))
          <==> NamesShort(list) && remaining <= 2097151)
      && (remaining > 2097151 ==> Decode(UnsubscribeBytes(id, list) + rest) == Rejected)
  {
    var buf := UnsubscribeBytes(id, list) + rest;
    if 2 + |UnsubscribePayload(list)| > 2097151 {
      LongBodyIsRejected(162, [id.0, id.1] + UnsubscribePayload(list), rest);
    } else if NamesShort(list) {
      UnsubscribeBody(id, list);
      PacketIsDecoded(162, [id.0, id.1] + UnsubscribePayload(list), rest, Unsubscribe(id.0, id.1, AsNames(list)));
    } else if Decode(buf).Ok? && Decode(buf).value.0 == Unsubscribe(id.0, id.1, AsNames(list)) {
      DecodedNamesArePlausible(buf);
      PlausibleNamesAreShort(list);
    }
  }
}
