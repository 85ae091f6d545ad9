/** `mqtt_pack_decode` and the packet constructors of src/mqtt_decode.c. */
module Decoder {
  import opened Prelude
  import opened Lengths
  import opened Bits

  // ---------- strings ----------

  /** `struct mqtt_string`: the two length bytes as they stand, the length `string_len` made of
      them, and the text up to its first NUL. */
  datatype MqttString = MqttString(msb: Byte, lsb: Byte, len: nat, text: seq<Byte>)

  function ReadByte(b: seq<Byte>, p: int): Outcome<Byte>
  {
    if 0 <= p < |b| then Ok(b[p]) else Fault
  }

  /** `strncpy` of up to `n` bytes. */
  function CopyString(b: seq<Byte>, p: nat, n: nat): Outcome<seq<Byte>>
    decreases n
  {
    if n == 0 then Ok([])
    else
      var x :- ReadByte(b, p);
      if x == 0 then Ok([])
      else
        var rest :- CopyString(b, p + 1, n - 1);
        Ok([x] + rest)
  }

  /** `hex_to_string`; an empty string is NULL. */
  function HexToString(b: seq<Byte>, p: nat): Outcome<Option<MqttString>>
  {
    var len :- StringLen(b, p);
    var msb :- ReadByte(b, p);
    var lsb :- ReadByte(b, p + 1);
    if len == 0 then Ok(None)
    else
      var text :- CopyString(b, p + 2, len);
      Ok(Some(MqttString(msb, lsb, len, text)))
  }

  /** A string that is used without a NULL check. */
  function NonNull(s: Option<MqttString>): Outcome<MqttString>
  {
    if s.None? then Fault else Ok(s.value)
  }

  // ---------- packets ----------

  datatype Filter = Filter(name: MqttString, qos: Byte)

  datatype Packet =
    | Connect(flags: Byte, keepMsb: Byte, keepLsb: Byte, clientId: MqttString,
              will: Option<(MqttString, MqttString)>, user: Option<MqttString>, password: Option<MqttString>)
    | WrongVersion(level: Byte)
    | Publish(retain: nat, qos: nat, dup: nat, topic: MqttString, id: Option<(Byte, Byte)>, payload: seq<Byte>)
    | Acknowledge(kind: nat, byte1: Byte, byte2: Byte)
    | Subscribe(idMsb: Byte, idLsb: Byte, filters: seq<Filter>)
    | Unsubscribe(idMsb: Byte, idLsb: Byte, names: seq<MqttString>)
    | Pingreq
    | Disconnect

  /** `x >> k & 1`. */
  function Bit(x: nat, k: nat): (b: nat)
    ensures b <= 1
  {
    if k == 0 then x % 2 else Bit(x / 2, k - 1)
  }

  /** It is the binary digit with the weight of two to the `k`. */
  lemma {:induction false} BitIsDigit(x: nat, k: nat)
    ensures Bit(x, k) == x / Pow2(k) % 2
  {
    if k == 0 {
    } else {
      BitIsDigit(x / 2, k - 1);
      QuotientOfQuotient(x, Pow2(k - 1));
    }
  }

  lemma QuotientOfQuotient(x: nat, d: nat)
    requires 0 < d
    ensures x / 2 / d == x / (2 * d)
  {
    var (h, r) := (x / 2, x % 2);
    var (q, t) := (h / d, h % d);
    assert h == q * d + t;
    assert x == q * (2 * d) + (2 * t + r) && 2 * t + r < 2 * d;
    DivModUnique(x, 2 * d, q, 2 * t + r);
  }

  const PROTOCOL_NAME: seq<Byte> := [77, 81, 84, 84]

  /** A string that a CONNECT flag announces. */
  function Announced(b: seq<Byte>, p: nat, present: bool): Outcome<(Option<MqttString>, nat)>
  {
    if !present then Ok((None, p))
    else
      var o :- HexToString(b, p);
      var s :- NonNull(o);
      Ok((Some(s), p + s.len + 2))
  }

  /** The payload of a CONNECT packet behind the client id. */
  function ConnectPayload(b: seq<Byte>, p: nat, flags: Byte, keepMsb: Byte, keepLsb: Byte, clientId: MqttString):
    Outcome<Packet>
  {
    var (topic, p1) :- Announced(b, p, Bit(flags, 2) == 1);
    var (message, p2) :- Announced(b, p1, Bit(flags, 2) == 1);
    var (user, p3) :- Announced(b, p2, Bit(flags, 7) == 1);
    var (password, _) :- Announced(b, p3, Bit(flags, 6) == 1);
    Ok(Connect(flags, keepMsb, keepLsb, clientId,
               if topic.Some? && message.Some? then Some((topic.value, message.value)) else None, user, password))
  }

  /** `mqtt_connect_packet_create`. An absent client id is a NULL pointer, which is dereferenced. */
  function ConnectCreate(b: seq<Byte>, nibble: nat): Outcome<Packet>
  {
    if nibble != 0 then Rejected
    else
      var o :- HexToString(b, 0);
      var name :- NonNull(o);
      if name.text != PROTOCOL_NAME then Rejected
      else
        var p := name.len + 2;
        var level :- ReadByte(b, p);
        if level != 4 then Ok(WrongVersion(level))
        else
          var flags :- ReadByte(b, p + 1);
          var keepMsb :- ReadByte(b, p + 2);
          var keepLsb :- ReadByte(b, p + 3);
          var oid :- HexToString(b, p + 4);
          if oid.Some? && oid.value.len >= 64 then Rejected
          else
            var clientId :- NonNull(oid);
            ConnectPayload(b, p + 6 + clientId.len, flags, keepMsb, keepLsb, clientId)
  }

  function CopyBytes(b: seq<Byte>, p: nat, n: int): Outcome<seq<Byte>>
  {
    if 0 <= n && p + n <= |b| then Ok(b[p..p + n]) else Fault
  }

  /** `mqtt_publish_packet_create`. The payload length does not allow for the packet identifier. */
  function PublishCreate(b: seq<Byte>, nibble: nat, remaining: nat): Outcome<Packet>
  {
    var qos := 2 * Bit(nibble, 2) + Bit(nibble, 1);
    var o :- HexToString(b, 0);
    var topic :- NonNull(o);
    var p := topic.len + 2;
    var strLen := remaining - topic.len - 2;
    if qos > 0 then
      var msb :- ReadByte(b, p);
      var lsb :- ReadByte(b, p + 1);
      var payload :- CopyBytes(b, p + 2, strLen);
      Ok(Publish(Bit(nibble, 0), qos, Bit(nibble, 3), topic, Some((msb, lsb)), payload))
    else
      var payload :- CopyBytes(b, p, strLen);
      Ok(Publish(Bit(nibble, 0), qos, Bit(nibble, 3), topic, None, payload))
  }

  function AcknowledgeCreate(b: seq<Byte>, kind: nat): Outcome<Packet>
  {
    var byte1 :- ReadByte(b, 0);
    var byte2 :- ReadByte(b, 1);
    Ok(Acknowledge(kind, byte1, byte2))
  }

  // ---------- SUBSCRIBE: one pass to count, one to fill ----------

  /** `*buff || *(buff + 1)`. */
  function More(b: seq<Byte>, p: nat): Outcome<bool>
  {
    var x :- ReadByte(b, p);
    if x != 0 then Ok(true)
    else
      var y :- ReadByte(b, p + 1);
      Ok(y != 0)
  }

  /** What `subscribe_topic_len` counts from `p` on. */
  function CountFilters(b: seq<Byte>, p: nat): Outcome<nat>
    decreases |b| - p
  {
    var more :- More(b, p);
    if !more then Ok(0)
    else
      var len :- StringLen(b, p);
      var n :- CountFilters(b, p + len + 3);
      Ok(n + 1)
  }

  function FilterAt(b: seq<Byte>, p: nat): Outcome<Filter>
  {
    var o :- HexToString(b, p);
    var name :- NonNull(o);
    var qos :- ReadByte(b, p + name.len + 2);
    Ok(Filter(name, qos))
  }

  /** The filters that lie in the buffer from `p` on. */
  function FiltersFrom(b: seq<Byte>, p: nat): Outcome<seq<Filter>>
    decreases |b| - p
  {
    var more :- More(b, p);
    if !more then Ok([])
    else
      var f :- FilterAt(b, p);
      var rest :- FiltersFrom(b, p + f.name.len + 3);
      Ok([f] + rest)
  }

  method SubscribeTopicLen(b: seq<Byte>, start: nat) returns (r: Outcome<nat>)
    ensures r == CountFilters(b, start)
  {
    var p, value := start, 0;
    while true
      invariant start <= p && 0 <= value
      invariant CountFilters(b, start) ==
        var rest := CountFilters(b, p); if rest.Ok? then Ok(value + rest.value) else rest
      decreases |b| - p
    {
      var more :- More(b, p);
      if !more {
        break;
      }
      var j :- ReadStringLen(b, p);
      p := p + j + 3;
      value := value + 1;
    }
    r := Ok(value);
  }

  /** The pass that fills agrees with the pass that counts. */
  lemma {:induction false} FillingMatchesCounting(b: seq<Byte>, p: nat)
    ensures FiltersFrom(b, p).Ok? ==> CountFilters(b, p) == Ok(|FiltersFrom(b, p).value|)
    decreases |b| - p
  {
    if p < |b| && FiltersFrom(b, p).Ok? && More(b, p) == Ok(true) {
      var f := FilterAt(b, p).value;
      FillingMatchesCounting(b, p + f.name.len + 3);
    }
  }

  /** The elements read so far and those still to come. */
  function Behind<T>(done: seq<T>, rest: Outcome<seq<T>>): Outcome<seq<T>>
  {
    if rest.Ok? then Ok(done + rest.value) else rest
  }

  lemma BehindNothing<T>(rest: Outcome<seq<T>>)
    ensures Behind([], rest) == rest
  {
    if rest.Ok? {
      assert [] + rest.value == rest.value;
    }
  }

  lemma BehindOneMore<T>(done: seq<T>, x: T, rest: Outcome<seq<T>>)
    ensures Behind(done, Behind([x], rest)) == Behind(done + [x], rest)
  {
    if rest.Ok? {
      assert done + ([x] + rest.value) == (done + [x]) + rest.value;
    }
  }

  lemma FiltersNext(b: seq<Byte>, p: nat)
    requires More(b, p) == Ok(true)
    ensures FiltersFrom(b, p) ==
      var f := FilterAt(b, p);
      if f.Ok? then Behind([f.value], FiltersFrom(b, p + f.value.name.len + 3)) else f.PropagateFailure()
    ensures FilterAt(b, p).Ok? && CountFilters(b, p).Ok? ==>
      CountFilters(b, p).value > 0
      && CountFilters(b, p + FilterAt(b, p).value.name.len + 3) == Ok(CountFilters(b, p).value - 1)
  {
  }

  lemma FiltersEnd(b: seq<Byte>, p: nat)
    ensures More(b, p).IsFailure() ==> FiltersFrom(b, p) == More(b, p).PropagateFailure()
    ensures More(b, p) == Ok(false) ==> FiltersFrom(b, p) == Ok([]) && CountFilters(b, p) == Ok(0)
  {
  }

  const NOFILTER := Filter(MqttString(0, 0, 0, []), 0)

  /** The filling loop of `mqtt_subscribe_packet_create`: the array made for the counted number of
      filters is never overrun, and if all goes well it is full at the end. */
  method FillFilters(b: seq<Byte>, start: nat, topics: nat) returns (r: Outcome<seq<Filter>>)
    requires CountFilters(b, start) == Ok(topics)
    ensures r == FiltersFrom(b, start)
    ensures r.Ok? ==> |r.value| == topics
  {
    hide FiltersFrom, CountFilters;
    var payload := new Filter[topics](_ => NOFILTER);
    var p: nat, i: nat := start, 0;
    BehindNothing(FiltersFrom(b, start));
    assert payload[..0] == [];
    while true
      invariant 0 <= i <= topics && CountFilters(b, p) == Ok(topics - i)
      invariant FiltersFrom(b, start) == Behind(payload[..i], FiltersFrom(b, p))
      decreases topics - i
    {
      FiltersEnd(b, p);
      var more :- More(b, p);
      if !more {
        break;
      }
      FiltersNext(b, p);
      ghost var before, rest := payload[..i], FiltersFrom(b, p);
      payload[i] :- FilterAt(b, p);
      assert payload[..i + 1] == before + [payload[i]];
      p := p + payload[i].name.len + 3;
      i := i + 1;
      BehindOneMore(before, payload[i - 1], FiltersFrom(b, p));
    }
    r := Ok(payload[..i]);
    assert payload[..i] + [] == payload[..i];
  }

  function SubscribeCreate(b: seq<Byte>, nibble: nat): Outcome<Packet>
  {
    if nibble != 2 then Rejected
    else
      var msb :- ReadByte(b, 0);
      var lsb :- ReadByte(b, 1);
      var n :- CountFilters(b, 2);
      var filters :- FiltersFrom(b, 2);
      Ok(Subscribe(msb, lsb, filters))
  }

  method MakeSubscribe(b: seq<Byte>, nibble: nat) returns (r: Outcome<Packet>)
    ensures r == SubscribeCreate(b, nibble)
  {
    if nibble != 2 {
      return Rejected;
    }
    var msb :- ReadByte(b, 0);
    var lsb :- ReadByte(b, 1);
    var topics :- SubscribeTopicLen(b, 2);
    var filters :- FillFilters(b, 2, topics);
    r := Ok(Subscribe(msb, lsb, filters));
  }

  // ---------- UNSUBSCRIBE: the count also watches the length ----------

  /** What `unsubscribe_topic_len` counts from `p` on, `used` bytes into the payload. */
  function CountNames(b: seq<Byte>, p: nat, used: nat, limit: int): Outcome<nat>
    decreases |b| - p
  {
    var more :- More(b, p);
    if !more then Ok(0)
    else
      var len :- StringLen(b, p);
      if used + len + 2 > limit then Ok(0)
      else
        var n :- CountNames(b, p + len + 2, used + len + 2, limit);
        Ok(n + 1)
  }

  method UnsubscribeTopicLen(b: seq<Byte>, start: nat, limit: int) returns (r: Outcome<nat>)
    ensures r == CountNames(b, start, 0, limit)
  {
    var p, used, value := start, 0, 0;
    while true
      invariant start <= p && 0 <= value && 0 <= used
      invariant CountNames(b, start, 0, limit) ==
        var rest := CountNames(b, p, used, limit); if rest.Ok? then Ok(value + rest.value) else rest
      decreases |b| - p
    {
      var more :- More(b, p);
      if !more {
        break;
      }
      var j :- ReadStringLen(b, p);
      p := p + j + 2;
      used := used + j + 2;
      if used > limit {
        break;
      }
      value := value + 1;
    }
    r := Ok(value);
  }

  /** The next `n` names. */
  function NamesFrom(b: seq<Byte>, p: nat, n: nat): Outcome<seq<MqttString>>
    decreases n
  {
    if n == 0 then Ok([])
    else
      var o :- HexToString(b, p);
      var name :- NonNull(o);
      var rest :- NamesFrom(b, p + name.len + 2, n - 1);
      Ok([name] + rest)
  }

  method FillNames(b: seq<Byte>, start: nat, n: nat) returns (r: Outcome<seq<MqttString>>)
    ensures r == NamesFrom(b, start, n)
  {
    var payload := new MqttString[n](_ => MqttString(0, 0, 0, []));
    var p: nat := start;
    BehindNothing(NamesFrom(b, start, n));
    assert payload[..0] == [];
    for i := 0 to n
      invariant NamesFrom(b, start, n) == Behind(payload[..i], NamesFrom(b, p, n - i))
    {
      var o :- HexToString(b, p);
      ghost var before := payload[..i];
      payload[i] :- NonNull(o);
      assert payload[..i + 1] == before + [payload[i]];
      p := p + payload[i].len + 2;
      BehindOneMore(before, payload[i], NamesFrom(b, p, n - i - 1));
    }
    r := Ok(payload[..]);
    assert payload[..] == payload[..n] == payload[..n] + [];
  }

  function UnsubscribeCreate(b: seq<Byte>, remaining: nat): Outcome<Packet>
  {
    var msb :- ReadByte(b, 0);
    var lsb :- ReadByte(b, 1);
    var n :- CountNames(b, 2, 0, remaining - 2);
    var names :- NamesFrom(b, 2, n);
    Ok(Unsubscribe(msb, lsb, names))
  }

  method MakeUnsubscribe(b: seq<Byte>, remaining: nat) returns (r: Outcome<Packet>)
    ensures r == UnsubscribeCreate(b, remaining)
  {
    var msb :- ReadByte(b, 0);
    var lsb :- ReadByte(b, 1);
    var n :- UnsubscribeTopicLen(b, 2, remaining - 2);
    var names :- FillNames(b, 2, n);
    r := Ok(Unsubscribe(msb, lsb, names));
  }

  // ---------- any packet ----------

  /** `packet_buff`: the bytes behind the fixed header and two zero bytes; NULL when there are none. */
  function PacketBuffer(buf: seq<Byte>, p: nat, n: nat): Outcome<seq<Byte>>
  {
    if n == 0 then Ok([])
    else
      var body :- CopyBytes(buf, p, n);
      Ok(body + [0, 0])
  }

  function Create(kind: nat, nibble: nat, b: seq<Byte>, remaining: nat): Outcome<Packet>
  {
    match kind
    case 1 => ConnectCreate(b, nibble)
    case 3 => PublishCreate(b, nibble, remaining)
    case 4 => AcknowledgeCreate(b, 4)
    case 5 => AcknowledgeCreate(b, 5)
    case 6 => AcknowledgeCreate(b, 6)
    case 7 => AcknowledgeCreate(b, 7)
    case 8 => SubscribeCreate(b, nibble)
    case 10 => UnsubscribeCreate(b, remaining)
    case 12 => Ok(Pingreq)
    case 14 => Ok(Disconnect)
    case _ => Rejected
  }

  /** The packet at the start of the buffer, and `*packet_len`. */
  function Decode(buf: seq<Byte>): Outcome<(Packet, nat)>
  {
    var first :- ReadByte(buf, 0);
    var (remaining, last) :- RemainingFrom(buf, 1, 1, 0);
    var b :- PacketBuffer(buf, last + 1, remaining);
    var packet :- Create(first / 16, first % 16, b, remaining);
    Ok((packet, remaining + 2))
  }

  /** `mqtt_pack_decode`. */
  method PackDecode(buf: seq<Byte>) returns (r: Outcome<(Packet, nat)>)
    ensures r == Decode(buf)
  {
    var first :- ReadByte(buf, 0);
    var header :- ReadRemaining(buf);
    var remaining := header.0;
    var b :- PacketBuffer(buf, header.1 + 1, remaining);
    var packet;
    if first / 16 == 8 {
      packet :- MakeSubscribe(b, first % 16);
    } else if first / 16 == 10 {
      packet :- MakeUnsubscribe(b, remaining);
    } else {
      packet :- Create(first / 16, first % 16, b, remaining);
    }
    r := Ok((packet, remaining + 2));
  }
}
