/** The NTP timestamp arithmetic and the packed reply, over exact reals. */
module Ntp {
  import opened Prelude

  /** Seconds from 1900 to 1970. */
  const EPOCH := 2208988800.0

  const TWO_32 := 4294967296

  /** `int(x)` drops the fraction toward zero. */
  function Truncate(x: real): int {
    if x >= 0.0 then x.Floor else -((-x).Floor)
  }

  function SystemTimeToNtp(time: real): (int, int) {
    var x := time + EPOCH;
    (Truncate(x) * TWO_32, Truncate((x - Truncate(x) as real) * TWO_32 as real))
  }

  /** `time >> 32` rounds down. */
  function NtpToSystemTime(time: int): (real, real) {
    var i := (time / TWO_32) as real - EPOCH;
    (i, (Truncate(i) % TWO_32) as real / TWO_32 as real)
  }

  /** The two parts together are the time scaled by 2^32, with the fraction dropped. */
  lemma PartsAreScaledTime(time: real)
    ensures var (i, f) := SystemTimeToNtp(time);
      i + f == Truncate((time + EPOCH) * TWO_32 as real)
      && (time + EPOCH >= 0.0 ==> i + f == ((time + EPOCH) * TWO_32 as real).Floor)
  {
    var x := time + EPOCH;
    if x >= 0.0 {
      FloorShift(x, x.Floor);
    } else {
      FloorShift(-x, (-x).Floor);
      var n := (-x).Floor;
      assert Truncate(x) == -n;
      assert (x - Truncate(x) as real) * TWO_32 as real == -((-x - n as real) * TWO_32 as real);
    }
  }

  /** Taking out a whole number of seconds before or after scaling makes no difference. */
  lemma FloorShift(x: real, n: int)
    ensures n * TWO_32 + ((x - n as real) * TWO_32 as real).Floor == (x * TWO_32 as real).Floor
  {
    var y := (x - n as real) * TWO_32 as real;
    assert y + (n * TWO_32) as real == x * TWO_32 as real;
    FloorPlusInt(y, n * TWO_32);
  }

  lemma FloorPlusInt(y: real, k: int)
    ensures (y + k as real).Floor == y.Floor + k
  {
  }

  /** The value fits an unsigned 64-bit field. */
  predicate Fits64(v: int) { 0 <= v < TWO_32 * TWO_32 }

  /** From 1900 on, the timestamp fits exactly before the end of the era; before, only the last 2^-32 second does. */
  lemma FitsWithinEra(time: real)
    ensures var (i, f) := SystemTimeToNtp(time);
      Fits64(i + f) <==> (time + EPOCH) * TWO_32 as real > -1.0 && time + EPOCH < TWO_32 as real
    ensures time + EPOCH >= 0.0 ==> var (i, f) := SystemTimeToNtp(time);
      Fits64(i + f) <==> time + EPOCH < TWO_32 as real
  {
    PartsAreScaledTime(time);
    var y := (time + EPOCH) * TWO_32 as real;
    assert time + EPOCH < TWO_32 as real <==> y < (TWO_32 * TWO_32) as real;
    TruncateBelow(y, TWO_32 * TWO_32);
  }

  lemma TruncateBelow(y: real, n: nat)
    requires n > 0
    ensures 0 <= Truncate(y) < n <==> -1.0 < y < n as real
  {
  }

  /**
    * Reading the upper half of a timestamp gives back the whole seconds, except before 1900 in the last 2^-32 of a
    * second, where dropping the fraction toward zero goes to the next second.
    */
  lemma UpperHalfIsSeconds(time: real)
    ensures var (i, f) := SystemTimeToNtp(time); var x := time + EPOCH;
      NtpToSystemTime(i + f).0 == time.Floor as real
      <==> x >= 0.0 || (x - x.Floor as real) * TWO_32 as real <= (TWO_32 - 1) as real
  {
    var x := time + EPOCH;
    var (i, f) := SystemTimeToNtp(time);
    var part := (x - x.Floor as real) * TWO_32 as real;
    assert 0.0 <= part < TWO_32 as real;
    FloorPlusInt(time, 2208988800);
    PartsAreScaledTime(time);
    var up := if x >= 0.0 then part.Floor else RoundUp(part);
    assert i + f == x.Floor * TWO_32 + up by {
      if x >= 0.0 {
        FloorShift(x, x.Floor);
      } else {
        RoundUpShift(x);
      }
    }
    HighHalf(x.Floor, up);
  }

  function RoundUp(y: real): int { -((-y).Floor) }

  lemma RoundUpShift(x: real)
    requires x < 0.0
    ensures Truncate(x * TWO_32 as real) == x.Floor * TWO_32 + RoundUp((x - x.Floor as real) * TWO_32 as real)
  {
    var part := (x - x.Floor as real) * TWO_32 as real;
    assert x * TWO_32 as real == (x.Floor * TWO_32) as real + part;
    FloorPlusInt(-part, -(x.Floor * TWO_32));
    assert -(x * TWO_32 as real) == -part + (-(x.Floor * TWO_32)) as real;
  }

  lemma HighHalf(seconds: int, low: int)
    requires 0 <= low <= TWO_32
    ensures (seconds * TWO_32 + low) / TWO_32 == if low < TWO_32 then seconds else seconds + 1
  {
  }

  /** 1970 is 2208988800 seconds after 1900; a second has 2^32 parts. */
  lemma Epoch1970()
    ensures SystemTimeToNtp(0.0) == (2208988800 * 0x1_0000_0000, 0)
    ensures SystemTimeToNtp(1.5) == (2208988801 * 0x1_0000_0000, 0x8000_0000)
    ensures NtpToSystemTime(2208988801 * 0x1_0000_0000).0 == 1.0
  {
    assert (1.5 + EPOCH).Floor == 2208988801;
  }

  /** The second result is no fraction of the time: it is the whole seconds again, as parts of 2^32. */
  lemma FractionIsSeconds(seconds: nat, fraction: nat)
    requires 2208988800 <= seconds < TWO_32 && fraction < TWO_32
    ensures NtpToSystemTime(seconds * TWO_32 + fraction).1 == (seconds - 2208988800) as real / 4294967296.0
  {
    HighHalf(seconds, fraction);
  }

  // ---------- datagramReceived ----------

  function Be64(n: int): (r: bytes)
    requires Fits64(n)
    ensures |r| == 8
  {
    Be32(n / TWO_32) + Be32(n % TWO_32)
  }

  /** The reply packed as "!B B B b I I I Q Q Q Q"; None is struct.error. */
  function Pack(stratum: byte, poll: byte, precision: byte, reference: byte, transmit: int): (r: Option<bytes>)
  {
    if precision >= 128 || !Fits64(transmit) then None
    else Some([26, stratum, poll, precision] + Be32(0) + Be32(0) + Be32(0)
              + Be64(0) + Be64(reference) + Be64(0) + Be64(transmit))
  }

  /** The version and mode that are logged, if there is a first byte, the reply, if any, and the status. */
  datatype Answer = Answer(version: Option<nat>, mode: Option<nat>, reply: Option<bytes>, success: bool)

  method DatagramReceived(data: bytes, time: real) returns (r: Answer)
    ensures r == Respond(data, time)
  {
    if |data| == 0 { return Answer(None, None, None, false); }
    var version, mode := data[0] as int / 8 % 8, data[0] as int % 8;
    var (i, f) := SystemTimeToNtp(time);
    if |data| < 11 { return Answer(Some(version), Some(mode), None, false); }
    var reply := Pack(data[1], data[2], data[3], data[10], i + f);
    r := Answer(Some(version), Some(mode), reply, reply.Some?);
  }

  function Respond(data: bytes, time: real): Answer {
    var (i, f) := SystemTimeToNtp(time);
    var reply := if |data| < 11 then None else Pack(data[1], data[2], data[3], data[10], i + f);
    Answer(if |data| == 0 then None else Some(data[0] as int / 8 % 8),
           if |data| == 0 then None else Some(data[0] as int % 8), reply, reply.Some?)
  }

  /** The first byte holds the leap indicator, the version and the mode (section 7.3 of RFC 5905). */
  lemma VersionAndMode(leap: nat, version: nat, mode: nat, rest: bytes, time: real)
    requires leap < 4 && version < 8 && mode < 8
    ensures var r := Respond([leap * 64 + version * 8 + mode] + rest, time);
      r.version == Some(version) && r.mode == Some(mode)
    ensures var r := Respond([], time); r.version == None && r.mode == None && !r.success
  {
  }

  lemma OneByte(b: byte)
    ensures Be64(b) == [0, 0, 0, 0, 0, 0, 0, b]
    ensures Be32(0) == [0, 0, 0, 0]
  {
  }

  /** The time is in range when it is scaled and its fraction dropped. */
  predicate InRange(time: real) {
    (time + EPOCH) * TWO_32 as real > -1.0 && time + EPOCH < TWO_32 as real
  }

  /** The fields between the precision and the transmit timestamp are zero, but for the low byte of the reference. */
  lemma MiddleFields(reference: byte)
    ensures Be32(0) + Be32(0) + Be32(0) + Be64(0) + Be64(reference) + Be64(0) == Zeros(27) + [reference] + Zeros(8)
  {
    OneByte(reference);
    OneByte(0);
    hide Be32, Be64;
  }

  lemma PackedBytes(stratum: byte, poll: byte, precision: byte, reference: byte, transmit: int)
    requires precision < 128 && Fits64(transmit)
    ensures Pack(stratum, poll, precision, reference, transmit)
         == Some([26, stratum, poll, precision] + (Zeros(27) + [reference] + Zeros(8))
                 + Be32(transmit / TWO_32) + Be32(transmit % TWO_32))
  {
    hide Be32, Zeros;
    MiddleFields(reference);
    var head: bytes := [26, stratum, poll, precision];
    var middle := Be32(0) + Be32(0) + Be32(0) + Be64(0) + Be64(reference) + Be64(0);
    assert Be64(transmit) == Be32(transmit / TWO_32) + Be32(transmit % TWO_32);
    hide Be64;
    assert head + Be32(0) + Be32(0) + Be32(0) + Be64(0) + Be64(reference) + Be64(0) + Be64(transmit)
        == head + middle + Be64(transmit);
    assert head + middle + Be64(transmit) == head + middle + Be32(transmit / TWO_32) + Be32(transmit % TWO_32);
  }

  lemma PackedLayout(stratum: byte, poll: byte, precision: byte, reference: byte, transmit: int)
    requires precision < 128 && Fits64(transmit)
    ensures var reply := Pack(stratum, poll, precision, reference, transmit);
      reply.Some? && |reply.value| == 48 && reply.value[..4] == [26, stratum, poll, precision]
      && reply.value[31] == reference && (forall k :: 4 <= k < 31 || 32 <= k < 40 ==> reply.value[k] == 0)
      && reply.value[40..44] == Be32(transmit / TWO_32) && reply.value[44..48] == Be32(transmit % TWO_32)
  {
    hide Be32, Zeros, Pack;
    PackedBytes(stratum, poll, precision, reference, transmit);
  }

  /**
    * The request is answered exactly when it has at least eleven bytes, its fourth is at most 127 and the time is in
    * range, which from 1900 on means before the end of the era. The reply has 48 bytes (section 7.3 of RFC 5905) and
    * ends in the scaled time.
    */
  lemma ReplyLayout(data: bytes, time: real)
    ensures var r := Respond(data, time);
      (r.success <==> |data| >= 11 && data[3] <= 127 && InRange(time))
      && (r.success <==> r.reply.Some?)
      && (r.success ==>
            var reply := r.reply.value;
            |reply| == 48 && reply[0] == 26 && reply[1..4] == data[1..4] && reply[31] == data[10]
            && (forall k :: 4 <= k < 31 || 32 <= k < 40 ==> reply[k] == 0)
            && FromBe32(reply[40..44]) * TWO_32 + FromBe32(reply[44..48]) == Truncate((time + EPOCH) * TWO_32 as real))
  {
    FitsWithinEra(time);
    PartsAreScaledTime(time);
    var r := Respond(data, time);
    var v := SystemTimeToNtp(time).0 + SystemTimeToNtp(time).1;
    hide Be32, SystemTimeToNtp, Truncate, FromBe32;
    if |data| >= 11 && data[3] <= 127 && InRange(time) {
      PackedLayout(data[1], data[2], data[3], data[10], v);
      hide Pack;
      var reply := r.reply.value;
      assert reply[1..4] == reply[..4][1..4] == data[1..4];
      Read32(v / TWO_32);
      Read32(v % TWO_32);
    }
  }

  /**
    * A client that reads the reply's timestamp as seconds gets the server's clock, rounded down, exactly when that is
    * not before 1900, where the only time in range is sent as zero.
    */
  lemma ClientReadsClock(data: bytes, time: real)
    requires Respond(data, time).success
    ensures var reply := Respond(data, time).reply.value;
      |reply| == 48
      && (NtpToSystemTime(FromBe32(reply[40..44]) * TWO_32 + FromBe32(reply[44..48])).0 == time.Floor as real
          <==> time + EPOCH >= 0.0)
  {
    ReplyLayout(data, time);
    PartsAreScaledTime(time);
    UpperHalfIsSeconds(time);
    hide Respond, SystemTimeToNtp, NtpToSystemTime, Truncate, FromBe32;
    if time + EPOCH < 0.0 { LastMoment(time + EPOCH); }
  }

  lemma LastMoment(x: real)
    requires -1.0 < x * TWO_32 as real < 0.0
    ensures (x - x.Floor as real) * TWO_32 as real > (TWO_32 - 1) as real
  {
    assert x.Floor == -1;
  }
}
