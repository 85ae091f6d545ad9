/** `string_encode` and the PUBLISH and CONNECT encoders of src/mqtt_encode.c, which write their
    packets through an advancing pointer. */
module Encoder {
  import opened Prelude
  import opened Lengths
  import opened Decoder

  /** A C string without its terminator. */
  type CString = s: seq<Byte> | 0 !in s

  // ---------- what is written ----------

  /** `string_encode`; a string that is too long comes out empty. */
  function StringEncode(s: CString): MqttString
  {
    if |s| > LENGTH_LIMIT then MqttString(0, 0, 0, [])
    else MqttString(MLBytes(|s|).0, MLBytes(|s|).1, |s|, s)
  }

  /** A string argument; NULL is encoded like the empty string. */
  function OrEmpty(s: Option<CString>): CString
  {
    if s.Some? then s.value else []
  }

  /** A length-prefixed string on the wire. */
  function StringBytes(s: MqttString): seq<Byte>
  {
    [s.msb, s.lsb] + s.text
  }

  /** A PUBLISH packet. The remaining length is cut down to one byte. */
  function PublishBytes(topic: CString, qos: nat, id: (Byte, Byte), payload: CString): seq<Byte>
    requires qos < 8
  {
    var name := StringEncode(topic);
    var remaining := name.len + |payload| + (if qos > 0 then 4 else 2);
    [48 + 2 * qos, remaining % 256] + StringBytes(name) + (if qos > 0 then [id.0, id.1] else []) + payload
  }

  /** The strings of a `connect_packet`; those that no flag announces are not used. */
  datatype Strings = Strings(clientId: MqttString, willTopic: MqttString, willMessage: MqttString,
                             userName: MqttString, password: MqttString)
  {
    function If(s: MqttString, present: bool): seq<Byte>
    {
      if present then StringBytes(s) else []
    }

    /** The encoder takes bit 6 for the user name and bit 7 for the password. */
    function Bytes(flags: Byte): seq<Byte>
    {
      StringBytes(clientId) + If(willTopic, Bit(flags, 2) == 1) + If(willMessage, Bit(flags, 2) == 1)
      + If(userName, Bit(flags, 6) == 1) + If(password, Bit(flags, 7) == 1)
    }
  }

  function Header(flags: Byte, keep: (Byte, Byte)): seq<Byte>
  {
    [0, 4] + PROTOCOL_NAME + [4, flags, keep.0, keep.1]
  }

  /** The arguments of `mqtt_conncet_encode`, absent strings empty. */
  datatype ConnectRequest = ConnectRequest(flags: Byte, keepAlive: nat, clientId: CString, willTopic: CString,
                                           willMessage: CString, userName: CString, password: CString)
  {
    function KeepBytes(): (Byte, Byte)
    {
      if keepAlive < LENGTH_LIMIT then MLBytes(keepAlive) else (0, 60)
    }

    function Encoded(): Strings
    {
      Strings(StringEncode(clientId), StringEncode(willTopic), StringEncode(willMessage),
              StringEncode(userName), StringEncode(password))
    }

    /** The variable header and the payload. */
    function Body(): seq<Byte>
    {
      Header(flags, KeepBytes()) + Encoded().Bytes(flags)
    }
  }

  function ConnectBytes(c: ConnectRequest): seq<Byte>
  {
    [16, |c.Body()| % 256] + c.Body()
  }

  // ---------- writing through a pointer ----------

  /** `*buff++ = x`. */
  method Put(buff: array<Byte>, p: nat, x: Byte) returns (next: nat)
    requires p < buff.Length
    modifies buff
    ensures next == p + 1 && buff[..next] == old(buff[..p]) + [x]
  {
    buff[p] := x;
    next := p + 1;
  }

  /** `memcpy`, and the pointer moved past it. */
  method PutBytes(buff: array<Byte>, p: nat, s: seq<Byte>) returns (next: nat)
    requires p + |s| <= buff.Length
    modifies buff
    ensures next == p + |s| && buff[..next] == old(buff[..p]) + s
  {
    forall i | 0 <= i < |s| {
      buff[p + i] := s[i];
    }
    next := p + |s|;
  }

  method PutString(buff: array<Byte>, p: nat, s: MqttString) returns (next: nat)
    requires p + 2 + |s.text| <= buff.Length
    modifies buff
    ensures next == p + |StringBytes(s)| && buff[..next] == old(buff[..p]) + StringBytes(s)
  {
    next := Put(buff, p, s.msb);
    next := Put(buff, next, s.lsb);
    next := PutBytes(buff, next, s.text);
    assert old(buff[..p]) + [s.msb] + [s.lsb] + s.text == old(buff[..p]) + StringBytes(s);
  }

  /** `string_encode`: NULL and a string that is too long come out empty. */
  method EncodeString(s: Option<CString>) returns (r: MqttString)
    ensures r == StringEncode(OrEmpty(s))
    ensures s.None? || |s.value| > 16384 ==> r == MqttString(0, 0, 0, [])
    ensures s.Some? && |s.value| <= 16384 ==>
      r.text == s.value && r.len == |s.value| && (r.msb, r.lsb) == MLBytes(|s.value|)
  {
    if s.None? || |s.value| > LENGTH_LIMIT {
      return MqttString(0, 0, 0, []);
    }
    var msb, lsb := MLEncode(|s.value|);
    r := MqttString(msb, lsb, |s.value|, s.value);
  }

  // ---------- PUBLISH ----------

  /** `publish_packet_to_hex`. */
  method PublishToHex(control: Byte, remaining: nat, topic: MqttString, qos: nat, id: (Byte, Byte), payload: CString)
    returns (hex: array<Byte>)
    requires topic.len == |topic.text| && remaining == topic.len + |payload| + (if qos > 0 then 4 else 2)
    ensures fresh(hex) && hex.Length == remaining + 3
    ensures hex[..remaining + 2]
         == [control, remaining % 256] + StringBytes(topic) + (if qos > 0 then [id.0, id.1] else []) + payload
  {
    hex := new Byte[remaining + 3](_ => 0);
    var p := Put(hex, 0, control);
    p := Put(hex, p, remaining % 256);
    p := PutString(hex, p, topic);
    ghost var front := [control, remaining % 256] + StringBytes(topic);
    assert hex[..p] == front;
    if qos > 0 {
      p := Put(hex, p, id.0);
      p := Put(hex, p, id.1);
      assert hex[..p] == front + [id.0, id.1];
    } else {
      assert hex[..p] == front + [];
    }
    p := PutBytes(hex, p, payload);
  }

  /** `mqtt_publish_encode_qos_0`. */
  method PublishEncodeQos0(topic: CString, payload: CString, buff: array<Byte>) returns (n: nat)
    requires |PublishBytes(topic, 0, (0, 0), payload)| <= buff.Length
    modifies buff
    ensures n == |PublishBytes(topic, 0, (0, 0), payload)| && buff[..n] == PublishBytes(topic, 0, (0, 0), payload)
  {
    var name := EncodeString(Some(topic));
    var remaining := name.len + |payload| + 2;
    var hex := PublishToHex(3 * 16, remaining, name, 0, (0, 0), payload);
    n := PutBytes(buff, 0, hex[..remaining + 2]);
  }

  /** `mqtt_publish_encode_qos_1_2`. */
  method PublishEncodeQos12(topic: CString, qos: nat, id: (Byte, Byte), payload: CString, buff: array<Byte>)
    returns (n: nat)
    requires 0 < qos < 8 && |PublishBytes(topic, qos, id, payload)| <= buff.Length
    modifies buff
    ensures n == |PublishBytes(topic, qos, id, payload)| && buff[..n] == PublishBytes(topic, qos, id, payload)
  {
    var name := EncodeString(Some(topic));
    var remaining := name.len + |payload| + 4;
    var hex := PublishToHex(3 * 16 + 2 * qos, remaining, name, qos, id, payload);
    n := PutBytes(buff, 0, hex[..remaining + 2]);
  }

  // ---------- CONNECT ----------

  /** A string of the CONNECT payload, if its flag is set: encoded, and its length added up. */
  method Announce(s: Option<CString>, present: bool, remaining: nat) returns (r: MqttString, remaining': nat)
    ensures r == StringEncode(OrEmpty(s))
    ensures remaining' == if present then remaining + |StringBytes(r)| else remaining
  {
    r := EncodeString(s);
    remaining' := remaining;
    if present {
      remaining' := remaining + r.len + 2;
    }
  }

  method PutIf(buff: array<Byte>, p: nat, s: MqttString, present: bool) returns (next: nat)
    requires present ==> p + |StringBytes(s)| <= buff.Length
    requires p <= buff.Length
    modifies buff
    ensures next == p + |if present then StringBytes(s) else []|
    ensures buff[..next] == old(buff[..p]) + (if present then StringBytes(s) else [])
  {
    next := p;
    if present {
      next := PutString(buff, p, s);
    }
  }

  /** The fixed and variable header, as `conncet_packet_to_hex` writes them. */
  method PutHeader(hex: array<Byte>, remaining: nat, flags: Byte, keep: (Byte, Byte)) returns (p: nat)
    requires 12 <= hex.Length
    modifies hex
    ensures p == 12 && hex[..p] == [16, remaining % 256] + Header(flags, keep)
  {
    p := Put(hex, 0, 16);
    p := Put(hex, p, remaining % 256);
    p := PutString(hex, p, MqttString(0, 4, 4, PROTOCOL_NAME));
    p := Put(hex, p, 4);
    p := Put(hex, p, flags);
    p := Put(hex, p, keep.0);
    p := Put(hex, p, keep.1);
  }

  lemma Associate(o: seq<Byte>, a: seq<Byte>, b: seq<Byte>, c: seq<Byte>, d: seq<Byte>, e: seq<Byte>)
    ensures o + a + b + c + d + e == o + (a + b + c + d + e)
  {
  }

  method PutStrings(hex: array<Byte>, start: nat, flags: Byte, s: Strings) returns (p: nat)
    requires start + |s.Bytes(flags)| <= hex.Length
    modifies hex
    ensures p == start + |s.Bytes(flags)| && hex[..p] == old(hex[..start]) + s.Bytes(flags)
  {
    ghost var was := hex[..start];
    p := PutString(hex, start, s.clientId);
    p := PutIf(hex, p, s.willTopic, Bit(flags, 2) == 1);
    p := PutIf(hex, p, s.willMessage, Bit(flags, 2) == 1);
    p := PutIf(hex, p, s.userName, Bit(flags, 6) == 1);
    p := PutIf(hex, p, s.password, Bit(flags, 7) == 1);
    Associate(was, StringBytes(s.clientId),
              s.If(s.willTopic, Bit(flags, 2) == 1), s.If(s.willMessage, Bit(flags, 2) == 1),
              s.If(s.userName, Bit(flags, 6) == 1), s.If(s.password, Bit(flags, 7) == 1));
  }

  /** `conncet_packet_to_hex`. */
  method ConnectToHex(remaining: nat, flags: Byte, keep: (Byte, Byte), s: Strings) returns (hex: array<Byte>)
    requires remaining == 10 + |s.Bytes(flags)|
    ensures fresh(hex) && hex.Length == remaining + 3
    ensures hex[..remaining + 2] == [16, remaining % 256] + (Header(flags, keep) + s.Bytes(flags))
  {
    hex := new Byte[remaining + 3](_ => 0);
    var p := PutHeader(hex, remaining, flags, keep);
    p := PutStrings(hex, p, flags, s);
    assert [16, remaining % 256] + Header(flags, keep) + s.Bytes(flags)
        == [16, remaining % 256] + (Header(flags, keep) + s.Bytes(flags));
  }

  /** The arguments of `mqtt_conncet_encode` as they come, with NULL for an absent string. */
  datatype ConnectArguments = ConnectArguments(
    flags: Byte, keepAlive: nat, clientId: Option<CString>, willTopic: Option<CString>,
    willMessage: Option<CString>, userName: Option<CString>, password: Option<CString>)
  {
    function Request(): ConnectRequest
    {
      ConnectRequest(flags, keepAlive, OrEmpty(clientId), OrEmpty(willTopic), OrEmpty(willMessage),
                     OrEmpty(userName), OrEmpty(password))
    }
  }

  method EncodeStrings(c: ConnectArguments) returns (s: Strings, remaining: nat)
    ensures s == c.Request().Encoded()
    ensures remaining == 10 + |s.Bytes(c.flags)|
  {
    var clientId, willTopic, willMessage, userName, password;
    clientId, remaining := Announce(c.clientId, true, 10);
    willTopic, remaining := Announce(c.willTopic, Bit(c.flags, 2) == 1, remaining);
    willMessage, remaining := Announce(c.willMessage, Bit(c.flags, 2) == 1, remaining);
    userName, remaining := Announce(c.userName, Bit(c.flags, 6) == 1, remaining);
    password, remaining := Announce(c.password, Bit(c.flags, 7) == 1, remaining);
    s := Strings(clientId, willTopic, willMessage, userName, password);
  }

  /** `mqtt_conncet_encode`: NULL for odd flags. */
  method ConnectEncode(c: ConnectArguments) returns (r: Option<seq<Byte>>)
    ensures r == if c.flags % 2 == 1 then None else Some(ConnectBytes(c.Request()))
  {
    if c.flags % 2 == 1 {
      return None;
    }
    var m, l: Byte := 0, 60;
    if c.keepAlive < 128 * 128 {
      m, l := MLEncode(c.keepAlive);
    }
    var s, remaining := EncodeStrings(c);
    var hex := ConnectToHex(remaining, c.flags, (m, l), s);
    r := Some(hex[..remaining + 2]);
  }
}
