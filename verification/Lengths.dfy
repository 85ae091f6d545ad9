/** The three length codings of the codec: `ML_encode` (src/mqtt_encode.c), `string_len` and the
    remaining-length loop of `mqtt_pack_decode` (src/mqtt_decode.c). */
module Lengths {
  import opened Prelude

  type Byte = x: int | 0 <= x < 256

  /** What a function of the decoder comes to: a value, a NULL result, or an access outside the
      buffer or through a NULL pointer. */
  datatype Outcome<+T> = Ok(value: T) | Rejected | Fault
  {
    predicate IsFailure()
    {
      !Ok?
    }
    function PropagateFailure<U>(): Outcome<U>
      requires IsFailure()
    {
      if Rejected? then Rejected else Fault
    }
    function Extract(): T
      requires !IsFailure()
    {
      value
    }
  }

  /** A failure stays the failure it is when it is passed on. */
  lemma FailuresAreKept<T, U>(o: Outcome<T>)
    requires o.IsFailure()
    ensures (o.Rejected? <==> o.PropagateFailure<U>().Rejected?) && (o.Fault? <==> o.PropagateFailure<U>().Fault?)
  {
  }

  // ---------- ML_encode ----------

  /** The most significant digit to base 128. */
  function LeadingDigit(x: nat): (d: nat)
    ensures d < 128
  {
    if x < 128 then x else LeadingDigit(x / 128)
  }

  /** The digit after it. */
  function SecondDigit(x: nat): (d: nat)
    requires 128 <= x
    ensures d < 128
  {
    if x / 128 < 128 then x % 128 else SecondDigit(x / 128)
  }

  /** The two bytes `ML_encode` leaves behind: the two most significant digits to base 128, the
      first of them in the low byte. */
  function MLBytes(x: nat): (Byte, Byte)
  {
    (if x < 128 then 0 else SecondDigit(x) + 128, LeadingDigit(x))
  }

  /** Two digits are the whole number up to 16383, and the first of them is zero for zero only. */
  lemma TwoDigits(x: nat)
    ensures 128 <= x < 16384 ==> x == 128 * LeadingDigit(x) + SecondDigit(x)
    ensures LeadingDigit(x) == 0 <==> x == 0
    decreases x
  {
    if 128 <= x {
      TwoDigits(x / 128);
    }
  }

  method MLEncode(x0: nat) returns (msb: Byte, lsb: Byte)
    ensures (msb, lsb) == MLBytes(x0)
  {
    msb, lsb := 0, 0;
    var x, again := x0, true;
    while again
      invariant again ==> LeadingDigit(x) == LeadingDigit(x0)
      invariant again ==> (x == x0 && msb == 0) || (x0 >= 128 && x > 0)
      invariant again && x0 >= 128 ==>
        if x < 128 then msb == SecondDigit(x0) + 128 else SecondDigit(x) == SecondDigit(x0)
      invariant !again ==> (msb, lsb) == MLBytes(x0)
      decreases again, x
    {
      var encoded := x % 128;
      x := x / 128;
      if x > 0 {
        encoded := encoded + 128;
        msb := encoded;
      }
      lsb := encoded;
      again := x > 0;
    }
  }

  // ---------- string_len ----------

  const LENGTH_LIMIT: nat := 16384

  /** `string_len`, from the byte at `k` downwards. */
  function LengthFrom(buf: seq<Byte>, k: int, multiplier: nat, value: nat): Outcome<nat>
    decreases k
  {
    if !(0 <= k < |buf|) then Fault
    else
      var v := value + (buf[k] % 128) * multiplier;
      if v > LENGTH_LIMIT then Ok(0)
      else if buf[k] < 128 then Ok(v)
      else LengthFrom(buf, k - 1, multiplier * 128, v)
  }

  function StringLen(buf: seq<Byte>, p: nat): Outcome<nat>
  {
    LengthFrom(buf, p + 1, 1, 0)
  }

  method ReadStringLen(buf: seq<Byte>, p: nat) returns (r: Outcome<nat>)
    ensures r == StringLen(buf, p)
  {
    var i, multiplier, value, again := p + 1, 1, 0, true;
    while again
      invariant 0 <= multiplier && 0 <= value && -1 <= i
      invariant StringLen(buf, p) == if again then LengthFrom(buf, i, multiplier, value) else Ok(value)
      decreases again, i
    {
      if !(0 <= i < |buf|) {
        return Fault;
      }
      value := value + (buf[i] % 128) * multiplier;
      multiplier := multiplier * 128;
      if value > LENGTH_LIMIT {
        value := 0;
        break;
      }
      again := buf[i] >= 128;
      i := i - 1;
    }
    r := Ok(value);
  }

  lemma {:induction false} LengthIsLimited(buf: seq<Byte>, k: int, multiplier: nat, value: nat)
    ensures var r := LengthFrom(buf, k, multiplier, value); r.Ok? ==> r.value <= LENGTH_LIMIT
    decreases k
  {
    if 0 <= k < |buf| {
      var v := value + (buf[k] % 128) * multiplier;
      if v <= LENGTH_LIMIT && buf[k] >= 128 {
        LengthIsLimited(buf, k - 1, multiplier * 128, v);
      }
    }
  }

  /** The one or two digits that two bytes can hold: the second byte first, and more than two digits
      only if both bytes say so. */
  lemma ShortStringLen(buf: seq<Byte>, p: nat)
    requires p + 1 < |buf|
    ensures buf[p + 1] < 128 ==> StringLen(buf, p) == Ok(buf[p + 1])
    ensures buf[p + 1] >= 128 && buf[p] < 128 ==>
      StringLen(buf, p).Ok? && StringLen(buf, p).value == 128 * (buf[p] as int) + (buf[p + 1] as int) - 128
    ensures buf[p + 1] >= 128 && buf[p] >= 128 && p == 0 ==> StringLen(buf, p) == Fault
  {
    if buf[p + 1] >= 128 {
      assert StringLen(buf, p) == LengthFrom(buf, p, 128, buf[p + 1] % 128);
    }
  }

  /** `string_len` reads the two-byte length of section 1.5.3 of MQTT 3.1.1 correctly exactly when
      the string is shorter than 128 bytes. */
  lemma StringLenIsRightBelow128(buf: seq<Byte>, p: nat)
    requires p + 1 < |buf|
    ensures var length: nat := 256 * (buf[p] as int) + buf[p + 1] as int;
      StringLen(buf, p) == Ok(length) <==> length < 128
  {
    var l, m := buf[p + 1], buf[p];
    if l >= 128 {
      assert StringLen(buf, p) == LengthFrom(buf, p, 128, l % 128);
      if m >= 128 {
        LengthIsLimited(buf, p + 1, 1, 0);
      }
    }
  }

  /** What comes back from the two bytes of `ML_encode` is the leading digit alone, so the pair is
      inverse exactly below 128. */
  lemma MLRoundTrip(x: nat)
    ensures var (m, l) := MLBytes(x);
      && StringLen([m, l], 0) == Ok(LeadingDigit(x))
      && (StringLen([m, l], 0) == Ok(x) <==> x < 128)
  {
  }

  // ---------- the remaining length ----------

  const REMAINING_LIMIT: nat := 128 * 128 * 128

  /** The remaining-length loop; the result is the value and the index of its last byte. */
  function RemainingFrom(buf: seq<Byte>, i: nat, multiplier: nat, value: nat): Outcome<(nat, nat)>
    requires 0 < multiplier
    decreases REMAINING_LIMIT - multiplier
  {
    if i >= |buf| then Fault
    else
      var v := value + (buf[i] % 128) * multiplier;
      if multiplier * 128 > REMAINING_LIMIT then Rejected
      else if buf[i] >= 128 then RemainingFrom(buf, i + 1, multiplier * 128, v)
      else Ok((v, i))
  }

  method ReadRemaining(buf: seq<Byte>) returns (r: Outcome<(nat, nat)>)
    ensures r == RemainingFrom(buf, 1, 1, 0)
    ensures r.Ok? ==> 1 <= r.value.1 <= 3
  {
    var i, multiplier, value, again := 0, 1, 0, true;
    while again
      invariant 0 <= i <= 3 && multiplier == [1, 128, 16384, 2097152][i] && 0 <= value && (again || i > 0)
      invariant RemainingFrom(buf, 1, 1, 0)
             == if again then RemainingFrom(buf, i + 1, multiplier, value) else Ok((value, i))
      decreases again, REMAINING_LIMIT - multiplier
    {
      i := i + 1;
      if i >= |buf| {
        return Fault;
      }
      value := value + (buf[i] % 128) * multiplier;
      multiplier := multiplier * 128;
      if multiplier > REMAINING_LIMIT {
        return Rejected;
      }
      again := buf[i] >= 128;
    }
    r := Ok((value, i));
  }

  /** The encoding of section 2.2.3 of MQTT 3.1.1. */
  function EncodeRemaining(x: nat): (r: seq<Byte>)
    ensures r != []
  {
    if x < 128 then [x] else [x % 128 + 128] + EncodeRemaining(x / 128)
  }

  lemma ThreeOrMoreBytes(first: Byte, x: nat, rest: seq<Byte>)
    requires x >= 16384
    ensures var code := EncodeRemaining(x);
      RemainingFrom([first] + code + rest, 1, 1, 0) == if x <= 2097151 then Ok((x, |code|)) else Rejected
    ensures x <= 2097151 ==> |EncodeRemaining(x)| <= 3
  {
    var code, y := EncodeRemaining(x), x / 128;
    var buf, z := [first] + code + rest, y / 128;
    assert forall i :: 0 <= i < |code| ==> buf[1 + i] == code[i];
    assert code == [x % 128 + 128] + EncodeRemaining(y);
    assert EncodeRemaining(y) == [y % 128 + 128] + EncodeRemaining(z);
    assert buf[1] == x % 128 + 128 && buf[2] == code[1] == y % 128 + 128;
    assert buf[3] == code[2] == EncodeRemaining(z)[0];
    if z >= 128 {
      assert EncodeRemaining(z)[0] == z % 128 + 128;
      assert |EncodeRemaining(z)| >= 2;
      assert buf[4] == code[3];
    }
  }

  /** The loop reads every remaining length of up to three bytes and rejects every longer one,
      whatever surrounds it. */
  lemma RemainingRoundTrip(first: Byte, x: nat, rest: seq<Byte>)
    ensures var code := EncodeRemaining(x);
      RemainingFrom([first] + code + rest, 1, 1, 0) == if x <= 2097151 then Ok((x, |code|)) else Rejected
    ensures x <= 2097151 ==> |EncodeRemaining(x)| <= 3
  {
    var code := EncodeRemaining(x);
    var buf := [first] + code + rest;
    assert forall i :: 0 <= i < |code| ==> buf[1 + i] == code[i];
    if x >= 16384 {
      ThreeOrMoreBytes(first, x, rest);
    } else if x >= 128 {
      assert code == [x % 128 + 128] + EncodeRemaining(x / 128);
      assert buf[1] == x % 128 + 128;
    }
  }
}
