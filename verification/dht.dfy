/** The Go package over the C driver: the thin wrapper that turns the C
    return code into a `(uint32, error)` pair, and the DHT11 and DHT22
    sensors that decode the packed word into humidity and temperature. */
module Dht {
  import opened Ints
  import opened Options
  import opened Pulse
  import opened Frame
  import opened Driver
  import opened Decimal
  import opened Arith
  import opened Clock

  /** A Go `error` value, reduced to its message. */
  datatype Error = Error(message: string)

  /** A Go `(value, error)` result pair; `err == None` stands for `nil`. */
  datatype Reply<T> = Reply(value: T, err: Option<Error>)

  /** Humidity in percent and temperature in degrees Celsius, as exact
      reals. */
  datatype Result = Result(humidity: real, temperature: real)

  /** Go's zero `Result{}`. */
  const ZERO: Result := Result(0.0, 0.0)

  const ERROR_PREFIX: string := "Unexpected behavior on the DHT sensor at "

  /** The wrapper's error: the fixed text followed by the pin number in
      decimal, from which the pin can be read back. */
  function PinError(pin: int): (e: Error)
    ensures |e.message| > |ERROR_PREFIX|
    ensures e.message[..|ERROR_PREFIX|] == ERROR_PREFIX
    ensures ParseInt(e.message[|ERROR_PREFIX|..]) == Some(pin)
  {
    var m := ERROR_PREFIX + IntToString(pin);
    assert m[|ERROR_PREFIX|..] == IntToString(pin);
    IntRoundTrip(pin);
    Error(m)
  }

  datatype CReply = CReply(reply: Reply<u32>, state: DhtState)

  /** `(*C.struct_dht_sensor).Read`: calls `dht_read` with an output
      variable initialised to 0; a non-zero return code yields the word and
      `nil`, a zero one yields 0 and the error naming the sensor's pin. On
      success the word holds the four data bytes of the received frame. */
  function CRead(s: DhtState, hs: Handshake, events: seq<PulseEvent>): (r: CReply)
    requires |events| == FRAME_WIDTHS
    ensures r.reply.err.None? <==>
              BeginSense(s, hs).ok && ChecksumMatches(ReceivedFrame(s, hs, events))
    ensures r.reply.err.None? ==> Unpack(r.reply.value) == ReceivedFrame(s, hs, events)[..4]
    ensures r.reply.err.Some? ==> r.reply.value == 0 && r.reply.err.value == PinError(s.pin)
    ensures r.state == DhtRead(s, 0, hs, events).state
  {
    var d := DhtRead(s, 0, hs, events);
    if d.ret != 0 then CReply(Reply(d.output, None), d.state)
    else CReply(Reply(0, Some(PinError(d.state.pin))), d.state)
  }

  /** DHT11 layout: `(w >> 24) & 0xff` is the humidity and
      `(w >> 8) & 0xff` the temperature, both whole numbers in [0, 255];
      they are the first and third packed bytes, and the second and fourth
      bytes play no part. */
  function Dht11Decode(w: u32): (r: Result)
    ensures r.humidity == Unpack(w)[0] as real && r.temperature == Unpack(w)[2] as real
    ensures 0.0 <= r.humidity <= 255.0 && r.humidity == r.humidity.Floor as real
    ensures 0.0 <= r.temperature <= 255.0 && r.temperature == r.temperature.Floor as real
  {
    var hum := (w / TWO_24) % TWO_8;
    var temp := (w / TWO_8) % TWO_8;
    var bytes := Unpack(w);
    assert hum == bytes[0] by {
      DivUnique(w / TWO_24, TWO_8, 0, bytes[0]);
    }
    assert temp == bytes[2];
    Result(hum as real, temp as real)
  }

  /** DHT22 layout: `(w >> 16) & 0xffff` is the humidity and `w & 0xffff`
      the temperature, each in tenths; the top bit of the temperature is not
      treated as a sign, so both values lie in [0, 6553.5]. Ten times each
      value is the big-endian number formed by its two packed bytes. */
  function Dht22Decode(w: u32): (r: Result)
    ensures r.humidity * 10.0 == (Unpack(w)[0] * TWO_8 + Unpack(w)[1]) as real
    ensures r.temperature * 10.0 == (Unpack(w)[2] * TWO_8 + Unpack(w)[3]) as real
    ensures 0.0 <= r.humidity <= 6553.5 && 0.0 <= r.temperature <= 6553.5
  {
    var hum := (w / TWO_16) % TWO_16;
    var temp := w % TWO_16;
    DivUnique(w / TWO_16, TWO_8, w / TWO_24, w / TWO_16 % TWO_8);
    assert hum == Unpack(w)[0] * TWO_8 + Unpack(w)[1];
    DivUnique(w % TWO_16, TWO_8, w / TWO_8 % TWO_8, w % TWO_8);
    assert temp == Unpack(w)[2] * TWO_8 + Unpack(w)[3];
    Result(hum as real / 10.0, temp as real / 10.0)
  }

  /** The DHT22 word for humidity and temperature given in tenths. */
  function Dht22Word(humTenths: u16, tempTenths: u16): u32 {
    humTenths * TWO_16 + tempTenths
  }

  /** DHT22 decoding inverts the layout: the tenths come back divided by 10,
      and only one word decodes to a given reading. */
  lemma Dht22RoundTrip(humTenths: u16, tempTenths: u16)
    ensures Dht22Decode(Dht22Word(humTenths, tempTenths))
            == Result(humTenths as real / 10.0, tempTenths as real / 10.0)
  {
    var w := Dht22Word(humTenths, tempTenths);
    DivUnique(w, TWO_16, humTenths, tempTenths);
  }

  lemma Dht22Injective(w: u32, w': u32)
    ensures Dht22Decode(w) == Dht22Decode(w') <==> w == w'
  {
    if Dht22Decode(w) == Dht22Decode(w') {
      var b, b' := Unpack(w), Unpack(w');
      assert b[0] * TWO_8 + b[1] == b'[0] * TWO_8 + b'[1];
      assert b[2] * TWO_8 + b[3] == b'[2] * TWO_8 + b'[3];
      DivUnique(b[0] * TWO_8 + b[1], TWO_8, b[0], b[1]);
      DivUnique(b'[0] * TWO_8 + b'[1], TWO_8, b'[0], b'[1]);
      DivUnique(b[2] * TWO_8 + b[3], TWO_8, b[2], b[3]);
      DivUnique(b'[2] * TWO_8 + b'[3], TWO_8, b'[2], b'[3]);
      assert b == b';
      PackUnpack(w, 0);
      PackUnpack(w', 0);
    }
  }

  /** Two words give the same DHT11 reading exactly when their first and
      third bytes agree. */
  lemma Dht11SameReading(w: u32, w': u32)
    ensures Dht11Decode(w) == Dht11Decode(w') <==>
            Unpack(w)[0] == Unpack(w')[0] && Unpack(w)[2] == Unpack(w')[2]
  {
  }

  /** The word 0x0190_00C8 holds 400 and 200 tenths: 40.0 % and 20.0 C. */
  lemma Dht22Example()
    ensures Dht22Decode(0x0190_00C8) == Result(40.0, 20.0)
  {
    Dht22RoundTrip(400, 200);
    assert Dht22Word(400, 200) == 0x0190_00C8;
  }

  /** -0.1 C, sent with the sign bit set, reads as 3276.9 C. */
  lemma Dht22NoSign()
    ensures Dht22Decode(0x8001).temperature == 3276.9
  {
    Dht22RoundTrip(0, 0x8001);
    assert Dht22Word(0, 0x8001) == 0x8001;
  }

  datatype Variant = DHT11 | DHT22

  /** The variant's layout: whole numbers in [0, 255] for a DHT11, tenths
      in [0, 6553.5] for a DHT22; never negative either way. */
  function Decode(v: Variant, w: u32): (r: Result)
    ensures v == DHT11 ==>
              r.humidity == Unpack(w)[0] as real && r.temperature == Unpack(w)[2] as real
    ensures v == DHT22 ==> r.humidity * 10.0 == (Unpack(w)[0] * TWO_8 + Unpack(w)[1]) as real
    ensures v == DHT22 ==> r.temperature * 10.0 == (Unpack(w)[2] * TWO_8 + Unpack(w)[3]) as real
    ensures 0.0 <= r.humidity && 0.0 <= r.temperature
  {
    match v
    case DHT11 => Dht11Decode(w)
    case DHT22 => Dht22Decode(w)
  }

  /** `dht11.Read` and `dht22.Read` after the wrapper call: an error is
      passed on unchanged with the zero `Result`, otherwise the word is
      decoded by the variant's layout and the error stays `nil`. */
  function DecodeReply(v: Variant, c: Reply<u32>): (r: Reply<Result>)
    ensures r.err == c.err
    ensures r.err.Some? ==> r.value == ZERO
    ensures r.err.None? && v == DHT11 ==> r.value.humidity == Unpack(c.value)[0] as real
    ensures r.err.None? && v == DHT11 ==> r.value.temperature == Unpack(c.value)[2] as real
    ensures r.err.None? && v == DHT22 ==> r.value == Dht22Decode(c.value)
  {
    if c.err.Some? then Reply(ZERO, c.err)
    else Reply(Decode(v, c.value), None)
  }

  /** A sensor: its variant, fixed when it is made, and the C driver state. */
  datatype Sensor = Sensor(variant: Variant, cdht: DhtState)

  /** `NewDHT11` / `NewDHT22`, with the calibrated counter as input. The Go
      `int` pin reaches `dht_init` as `C.int(pin)`, so the driver works on
      the pin's low 32 bits read as a signed value. */
  function NewSensor(v: Variant, pin: int, maxCounter: u16): (d: Sensor)
    ensures d.variant == v
    ensures (d.cdht.pin - pin) % TWO_32 == 0
    ensures -TWO_31 <= pin < TWO_31 ==> d.cdht.pin == pin
    ensures d.cdht.maxCounter == maxCounter
    ensures d.cdht.lastTimestamp == 0 && d.cdht.lastLevel == Low && d.cdht.loglevel == 0
  {
    Sensor(v, Init(CInt(pin), maxCounter))
  }

  /** `dhtImpl.Verbose`: the Go `int` level reaches the C state as
      `C.int(level)`, which keeps every level in the `int32` range and wraps
      the others; nothing else changes. */
  function Verbose(d: Sensor, level: int): (r: Sensor)
    ensures r.variant == d.variant
    ensures (r.cdht.loglevel - level) % TWO_32 == 0
    ensures -TWO_31 <= level < TWO_31 ==> r.cdht.loglevel == level
    ensures r.cdht.(loglevel := d.cdht.loglevel) == d.cdht
  {
    Sensor(d.variant, SetLogLevel(d.cdht, CInt(level)))
  }

  /** Values beyond 32 bits wrap on the way into the driver: a pin or level
      that differs from an `int32` value `c` by a multiple of 2^32 arrives as
      `c`, and errors then name pin `c`. On a 64-bit Go target, pin 2^32 + 4
      drives and reports pin 4, and level 2^32 switches logging off; on a
      32-bit target no Go `int` lies outside the `int32` range. */
  lemma WideValuesWrap(v: Variant, maxCounter: u16, d: Sensor, c: i32, k: int)
    ensures NewSensor(v, c + k * TWO_32, maxCounter).cdht.pin == c
    ensures PinError(NewSensor(v, c + k * TWO_32, maxCounter).cdht.pin) == PinError(c)
    ensures Verbose(d, c + k * TWO_32).cdht.loglevel == c
  {
    ModShift(0, -k, TWO_32);
    assert (c - (c + k * TWO_32)) % TWO_32 == 0;
    CIntUnique(c + k * TWO_32, c);
  }

  datatype SensorReply = SensorReply(reply: Reply<Result>, sensor: Sensor)

  /** `Read` of a DHT11 or DHT22 sensor: one wrapper read, then decoding by
      the sensor's fixed variant. */
  function Read(d: Sensor, hs: Handshake, events: seq<PulseEvent>): (r: SensorReply)
    requires |events| == FRAME_WIDTHS
    ensures r.sensor.variant == d.variant
    ensures r.sensor.cdht == DhtRead(d.cdht, 0, hs, events).state
    ensures r.reply.err == CRead(d.cdht, hs, events).reply.err
    ensures r.reply.err.Some? ==> r.reply.value == ZERO
    ensures r.reply.err.None? ==>
              r.reply.value == Decode(d.variant, CRead(d.cdht, hs, events).reply.value)
  {
    var c := CRead(d.cdht, hs, events);
    SensorReply(DecodeReply(d.variant, c.reply), Sensor(d.variant, c.state))
  }

  /** End to end for a DHT11: a successful read reports the first received
      byte as humidity and the third as temperature, and the frame passed the
      checksum test. */
  lemma Dht11ReadsFrame(d: Sensor, hs: Handshake, events: seq<PulseEvent>)
    requires |events| == FRAME_WIDTHS && d.variant == DHT11
    ensures var r := Read(d, hs, events);
            var data := ReceivedFrame(d.cdht, hs, events);
            r.reply.err.None? ==>
              && ChecksumMatches(data)
              && r.reply.value == Result(data[0] as real, data[2] as real)
  {
    var data := ReceivedFrame(d.cdht, hs, events);
    var c := CRead(d.cdht, hs, events);
    if c.reply.err.None? {
      assert Unpack(c.reply.value)[0] == data[..4][0] == data[0];
      assert Unpack(c.reply.value)[2] == data[..4][2] == data[2];
    }
  }

  /** End to end, dead line: a sensor whose line stays LOW after the start
      signal reports 0 % and 0 C with a `nil` error, whatever its variant. */
  lemma SilentLineReadsZeroResult(d: Sensor, response: Timeval)
    ensures Read(d, Handshake(response, Low, TimedOut, TimedOut),
                 seq(FRAME_WIDTHS, _ => TimedOut)).reply == Reply(ZERO, None)
  {
    SilentLineReadsZero(d.cdht, 0, response);
    assert Unpack(0) == [0, 0, 0, 0];
    Dht22RoundTrip(0, 0);
  }

  /** End to end, failure: the reading is the zero `Result` and the error
      message names the sensor's pin. */
  lemma ReadFailureNamesPin(d: Sensor, hs: Handshake, events: seq<PulseEvent>)
    requires |events| == FRAME_WIDTHS
    ensures var r := Read(d, hs, events);
            r.reply.err.Some? ==>
              && r.reply.value == ZERO
              && ParseInt(r.reply.err.value.message[|ERROR_PREFIX|..]) == Some(d.cdht.pin)
  {
  }
}
