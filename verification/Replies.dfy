/** The packets the broker answers with (src/mqtt_encode.c:52-62, 179-189, 256-266, 317-378). */
module Replies {
  import opened Prelude
  import opened Lengths
  import opened Decoder
  import opened Encoder
  import opened Codec

  // ---------- four-byte packets ----------

  /** `const_packet_to_hex`, by its bytes. */
  function ConstBytes(kind: nat, flag: nat, byte1: Byte, byte2: Byte): seq<Byte>
    requires kind < 16 && flag < 16
  {
    [kind * 16 + flag, 2, byte1, byte2]
  }

  /** `const_packet_to_hex`. */
  method ConstToHex(kind: nat, flag: nat, byte1: Byte, byte2: Byte) returns (r: seq<Byte>)
    requires kind < 16 && flag < 16
    ensures r == ConstBytes(kind, flag, byte1, byte2)
  {
    var buff := new Byte[5](_ => 0);
    var p := Put(buff, 0, kind * 16 + flag);
    p := Put(buff, p, 2);
    p := Put(buff, p, byte1);
    p := Put(buff, p, byte2);
    r := buff[..4];
  }

  /** `mqtt_connack_encode` as `event_handle` calls it for an accepted connection: the "session
      present" byte is one exactly if no flag above the lowest is set. */
  function Connack(flags: Byte): seq<Byte>
  {
    ConstBytes(2, 0, if flags / 2 == 0 then 1 else 0, 0)
  }

  /** The answer to a packet of another protocol version: "not authorized". */
  function ConnackRefused(): seq<Byte>
  {
    ConstBytes(2, 0, 0, 5)
  }

  /** Every accepted connection is answered with return code 0, every other one with return code 5
      (section 3.2.2.3 of MQTT 3.1.1). */
  lemma ConnackIsSpelledOut(flags: Byte)
    ensures Connack(flags) == [32, 2, if flags <= 1 then 1 else 0, 0] && ConnackRefused() == [32, 2, 0, 5]
  {
  }

  /** By section 3.2.2.2 of MQTT 3.1.1 the byte must be zero for a clean session, and it is; but it is
      also zero for every resumed session with any other flag set. */
  lemma SessionPresentNeedsNoFlags(flags: Byte)
    ensures Connack(flags)[2] == 1 <==> flags <= 1
    ensures Bit(flags, 1) == 1 ==> Connack(flags)[2] == 0
  {
  }

  /** Acknowledgements are decoded to their kind and their two identifier bytes, whatever follows. */
  lemma AcknowledgementRoundTrip(kind: nat, flag: nat, msb: Byte, lsb: Byte, rest: seq<Byte>)
    requires 4 <= kind <= 7 && flag < 16
    ensures Decode(ConstBytes(kind, flag, msb, lsb) + rest) == Ok((Acknowledge(kind, msb, lsb), 4))
  {
    var body: seq<Byte> := [msb, lsb];
    var buf := ConstBytes(kind, flag, msb, lsb) + rest;
    assert buf == [kind * 16 + flag] + EncodeRemaining(2) + body + rest;
    assert (kind * 16 + flag) / 16 == kind;
    PacketIsDecoded(kind * 16 + flag, body, rest, Acknowledge(kind, msb, lsb));
  }

  // ---------- SUBACK ----------

  /** `mqtt_suback_encode`, by its bytes: length and codes are cut down to a byte each. */
  function SubackBytes(msb: Byte, lsb: Byte, codes: seq<int>): seq<Byte>
  {
    [144, (2 + |codes|) % 256, msb, lsb] + Bytes(codes)
  }

  function Bytes(codes: seq<int>): (r: seq<Byte>)
    ensures |r| == |codes|
  {
    seq(|codes|, i requires 0 <= i < |codes| => codes[i] % 256)
  }

  /** Return codes that are bytes are sent as they are, behind the identifier. */
  lemma CodesAreSent(msb: Byte, lsb: Byte, codes: seq<int>)
    ensures var packet := SubackBytes(msb, lsb, codes);
      && |packet| == 4 + |codes| && packet[0] == 144 && packet[2..4] == [msb, lsb]
      && forall i :: 0 <= i < |codes| && 0 <= codes[i] < 256 ==> packet[4 + i] == codes[i]
  {
  }

  /** `suback_packet_to_hex`. */
  method SubackToHex(msb: Byte, lsb: Byte, codes: seq<int>) returns (r: seq<Byte>)
    ensures r == SubackBytes(msb, lsb, codes)
  {
    var buff := new Byte[4 + |codes|](_ => 0);
    buff[0] := 144;
    buff[1] := (2 + |codes|) % 256;
    buff[2] := msb;
    buff[3] := lsb;
    for i := 0 to |codes|
      invariant buff[..4] == [144, (2 + |codes|) % 256, msb, lsb]
      invariant forall k :: 0 <= k < i ==> buff[4 + k] == codes[k] % 256
    {
      buff[i + 4] := codes[i] % 256;
    }
    r := buff[..];
    assert r == r[..4] + r[4..] && r[4..] == Bytes(codes);
  }

  lemma LongRemaining(n: nat)
    ensures n < 128 ==> EncodeRemaining(n) == [n]
    ensures n >= 128 ==> |EncodeRemaining(n)| >= 2
  {
  }

  /** A SUBACK packet as section 3.9 of MQTT 3.1.1 lays it out. */
  function StandardSuback(msb: Byte, lsb: Byte, codes: seq<int>): seq<Byte>
  {
    [144] + EncodeRemaining(2 + |codes|) + ([msb, lsb] + Bytes(codes))
  }

  /** The packet is the standard's exactly if it answers at most 125 filters. */
  lemma SubackIsStandardUpTo125(msb: Byte, lsb: Byte, codes: seq<int>)
    ensures SubackBytes(msb, lsb, codes) == StandardSuback(msb, lsb, codes) <==> |codes| <= 125
  {
    var n, tail := 2 + |codes|, [msb, lsb] + Bytes(codes);
    LongRemaining(n);
    assert SubackBytes(msb, lsb, codes) == [144, n % 256] + tail;
    assert |StandardSuback(msb, lsb, codes)| == 1 + |EncodeRemaining(n)| + |tail|;
  }
}
