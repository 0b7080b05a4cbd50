# DHT11/DHT22 sensor decoding, modelled in Dafny

This project models the decoding path of a Raspberry Pi driver for the
DHT11 and DHT22 humidity/temperature sensors, which speak the Aosong
single-wire protocol. It models the C driver (`dht/dht.c`) and the Go
package over it (`dht/dht.go`), and proves properties of the model:

- **Pulse reader** (`pulse.dfy`, module `Pulse`). This models the driver
  state `struct dht_sensor` and `read_pulse_width`. A read measures the
  time from the last level change of the data line to the next one. It
  gives up and reports 100 us when its wrapping `uint16_t` sample counter
  meets `max_counter`. That happens after `max_counter` unchanged samples
  when `max_counter` is in 1..65535, after 65536 samples when it is 0, and
  never when it lies outside [0, 65535]. The busy-wait is modelled over a
  finite sequence of line samples. Above it, a read is abstracted to "timed
  out" or "edge seen at this clock reading".
- **Clock** (`clock.dfy`). This models `get_timestamp`, which computes
  microseconds in wrapping `uint64_t` arithmetic.
- **Frame** (`frame.dfy`). Each of the 40 bits comes from one (low, high)
  pair of pulse widths and is shifted MSB first into five bytes. A
  checksum test follows, then bytes 0-3 are packed big-endian into a
  `uint32_t`.
- **Driver** (`driver.dfy`). This models the `begin_sense` handshake and
  `dht_read`, including its failure paths. On failure the caller's
  `output` is not written. A read is given the 80 pulse events the line
  would supply, one per `read_pulse_width` call of the bit loop. When the
  handshake is refused, those events are never consumed.
- **Go layer** (`dht.dfy`, module `Dht`). The wrapper `Read` turns the C
  return code into a `(uint32, error)` pair, and its error message names
  the pin. The pin and the log level are Go `int`s that reach the C driver
  through `C.int(...)`, so they keep only their low 32 bits, read as a
  signed value. The DHT11 and DHT22 sensors decode the word. Errors pass
  through unchanged with the zero `Result`.
- **Support** (`ints.dfy`, `option.dfy`, `arith.dfy`, `decimal.dfy`). These
  hold the fixed-width integer types with the `C.int` conversion, the
  optional value, division facts, and Go's decimal rendering of the pin
  number together with a parser that reads it back.

Unsigned shifts and masks are written as arithmetic: `x >> k` is `x / 2^k`
and `x & 0xff` is `x % 256`. In the packing `a << 24 | b << 16 | c << 8 | d`,
each byte sits in its own bits, so the `|` is a sum.

The model keeps these behaviours of the code as written:

- The checksum is compared as a plain `int` sum of the four data bytes. It
  is not reduced modulo 256. A frame whose data bytes add up to more than 255
  is always refused, even when its checksum byte is the low 8 bits of the
  sum (`Driver.WideSumRefused`).
- A bit whose low pulse is outside [30, 70] us is still shifted in, as 0.
- DHT22 decoding has no sign bit. A temperature word with bit 15 set reads
  as a large positive value (`Dht.Dht22NoSign`).
- A second handshake pulse that times out reports 100 us, which passes the
  width test. So a line that stays LOW after the response is accepted
  (`Driver.SilentLineAccepted`).
- On such a line every bit read also times out. A 100 us low pulse makes
  each bit 0, and the all-zero frame passes the checksum. The read
  therefore succeeds with the word 0 (`Driver.SilentLineReadsZero`), and a
  DHT11 or DHT22 on a dead line reports 0 % and 0 C with no error
  (`Dht.SilentLineReadsZeroResult`).
- A pin or log level beyond the `int32` range wraps on its way into the
  driver. On a 64-bit Go target, `NewDHT11(1<<32 + 4)` drives and reports
  pin 4, and `Verbose(1<<32)` switches logging off (`Dht.WideValuesWrap`).

## Model

| member | source | states |
|---|---|---|
| Clock.GetTimestamp | dht/dht.c:10-12 | the timestamp is the exact microsecond count reduced modulo 2^64; for a well-formed reading within 64 bits, the seconds and microseconds can be read back from it |
| Clock.ModMulAdd | dht/dht.c:11 | reducing each `uint64_t` operand of `*` and `+` first gives the same result modulo 2^64 as the exact computation |
| Clock.TimestampMonotone | dht/dht.c:10-12 | for well-formed readings within 64 bits, timestamps follow the order of the readings (both directions), and distinct readings give distinct timestamps |
| Pulse.Init | dht/dht.c:34-40 | a new state has the given pin and counter, a last timestamp of 0, a LOW last level and log level 0 |
| Pulse.SetLogLevel | dht/dht.c:42-44 | stores the log level and leaves the pin, counter, timestamp and level unchanged |
| Pulse.TimeoutLimit | dht/dht.c:47-58 | the `uint16_t` counter meets `max_counter` after `max_counter` samples when it is in 1..65535, after 65536 samples when it is 0, and never when it is outside [0, 65535] |
| Pulse.WaitForChange | dht/dht.c:53-59 | the busy-wait times out exactly when the limit is reached with every sample unchanged; otherwise it stops at the first sample that differs from the last level, before the limit |
| Pulse.ReadPulseWidth | dht/dht.c:46-66 | a timeout returns 100 and leaves the state unchanged; an edge flips the last level, makes the new timestamp the last one, and returns the `uint64_t` difference (old timestamp + width = new timestamp mod 2^64); pin, counter and log level are kept |
| Pulse.SamplePulse | dht/dht.c:46-66 | over raw line samples, the pulse read returns 100 with the state unchanged exactly when the busy-wait times out, and otherwise behaves as an edge seen at the clock reading |
| Pulse.ReadWidths | dht/dht.c:115-117 | successive pulse reads give one width per event, each timeout gives 100, and pin, counter and log level are kept |
| Pulse.Elapsed | dht/dht.c:62 | the `uint64_t` time between two timestamps is the unique `uint64_t` that, added to the earlier one, gives the later one modulo 2^64 |
| Pulse.EdgeWidth | dht/dht.c:60-65 | in a run of pulse reads, an edge's width is the `uint64_t` time since the last earlier edge, or since the starting timestamp when there is none |
| Pulse.ReadWidthsEdges | dht/dht.c:115-117 | the width of every edge in a run of pulse reads, as in `Pulse.EdgeWidth` |
| Pulse.ReadWidthsLastStamp | dht/dht.c:60-65 | after a run of pulse reads the last timestamp is that of the last edge, or the starting one when no edge was seen |
| Pulse.ReadWidthsLastLevel | dht/dht.c:53-63 | after a run of pulse reads the last level has flipped once per edge, so it is the starting level exactly when the number of edges is even |
| Frame.PulseBit | dht/dht.c:119-124 | reference definition of the bit test: a pulse pair is a 1 bit exactly when its low pulse lies in [30, 70] us and its high pulse exceeds 50 us |
| Frame.BitsToByteBound | dht/dht.c:118-125 | n bits shifted in give a value below 2^n |
| Frame.BitsToByteBit | dht/dht.c:118-125 | the k-th bit shifted in is bit n-1-k of the value (MSB first) |
| Frame.ShiftInStep | dht/dht.c:118 | within a byte's 8 shifts, the `uint8_t` left shift loses no bit and leaves the low bit clear for the new one |
| Frame.OrBit | dht/dht.c:124 | or-ing a one-bit value sets the low bit when the bit is 1 and leaves the higher bits unchanged |
| Frame.AssembleFrame | dht/dht.c:110-129 | the 40-step shift loop builds exactly the five bytes the 80 pulse widths encode |
| Frame.FrameBitPlacement | dht/dht.c:115-125 | bit k of byte b is 1 exactly when pulse pair 8b+k has its low pulse in [30, 70] and its high pulse over 50 |
| Frame.BitsToByteZero | dht/dht.c:118-125 | bits that are all 0 shift in to the value 0 |
| Frame.FrameOfNoBits | dht/dht.c:110-125 | when no pulse pair passes the width test, all five bytes, checksum included, are 0 |
| Frame.FrameByteLocal | dht/dht.c:110-118 | each byte depends only on its own 8 pulse pairs |
| Frame.DataSum | dht/dht.c:134 | reference definition of the checksum's left side: the `int` sum of the four data bytes, in [0, 1020], and 0 only when all four are 0 |
| Frame.ChecksumMatches | dht/dht.c:134 | reference definition of the checksum test: the unreduced sum must equal the checksum byte, so an accepted frame's data bytes add up to less than 256 and the checksum is also their sum modulo 256 |
| Frame.Pack | dht/dht.c:138-141 | the packed word holds byte 0 in bits 31-24, byte 1 in 23-16, byte 2 in 15-8 and byte 3 in 7-0; the checksum byte takes no part |
| Frame.PackUnpack | dht/dht.c:138-141 | every `uint32_t` is the packing of its own four bytes, whatever the checksum byte |
| Frame.PackInjective | dht/dht.c:138-141 | two frames pack to the same word exactly when their four data bytes agree |
| Driver.ResponseState | dht/dht.c:88-90 | reference definition of the state before the dropped pulses: the response reading becomes the last timestamp and the sampled level the last level; pin, counter and log level are kept |
| Driver.BeginSense | dht/dht.c:88-106 | the second dropped pulse's width is 100 when it timed out, and otherwise the `uint64_t` time from the first pulse's edge, or from the response reading when the first pulse timed out; the handshake is accepted exactly when that width is at least 70 us and the line was last seen LOW, which holds when the response level was LOW with an even number of edges, or HIGH with an odd number; the bit reads start from the last handshake edge's timestamp, or the response reading when neither pulse was an edge, and from the response level flipped once per edge |
| Driver.SilentLineAccepted | dht/dht.c:91-104 | with a LOW response and both handshake pulses timing out, the handshake is accepted |
| Driver.SilentLineReadsZero | dht/dht.c:109-141 | with a LOW response and every handshake and bit pulse timing out, the read returns 1 with the word 0, because every bit is 0 and the all-zero frame passes the checksum |
| Driver.RegularResponse | dht/dht.c:91-104 | with a LOW response and two edges, acceptance depends only on the second pulse lasting at least 70 us |
| Driver.DhtRead | dht/dht.c:109-148 | returns 1 exactly when the handshake is accepted and the data bytes add up to the checksum byte; then the output unpacks to the four data bytes and their sum is at most 255; otherwise it returns 0 and leaves the output unchanged, and a refused handshake reads no bits |
| Driver.WideSumRefused | dht/dht.c:134-137 | a frame whose data bytes add up to more than 255 fails the checksum test |
| Driver.ReadWidthsLogLevel | dht/dht.c:46-66 | pulse reads give the same widths under any log level and keep the level |
| Driver.LogLevelIrrelevant | dht/dht.c:109-148 | for the same handshake and pulse events, the log level changes neither the return code, the output nor the state apart from the level |
| Decimal.IntToString | dht/dht.go:53 | reference definition of `%v` for an `int`: non-empty text that starts with a minus sign exactly when the value is negative |
| Decimal.NatRoundTrip | dht/dht.go:53 | the decimal digits of a natural number parse back to it |
| Decimal.IntRoundTrip | dht/dht.go:53 | the decimal text of any integer, with a minus sign when negative, parses back to it |
| Dht.PinError | dht/dht.go:53 | the error message is the fixed text followed by the pin, and the pin parses back from the text after it |
| Dht.CRead | dht/dht.go:47-54 | the error is nil exactly when `dht_read` succeeds, and the word then holds the received data bytes; on failure the word is 0 and the error names the pin |
| Dht.Dht11Decode | dht/dht.go:82-85 | humidity is the first packed byte and temperature the third; both are whole numbers in [0, 255] |
| Dht.Dht11SameReading | dht/dht.go:82-85 | two words give the same DHT11 reading exactly when their first and third bytes agree, so bits 23-16 and 7-0 are ignored |
| Dht.Dht22Decode | dht/dht.go:98-103 | ten times the humidity is the big-endian value of bytes 0-1, and ten times the temperature that of bytes 2-3; both lie in [0, 6553.5] |
| Dht.Dht22RoundTrip | dht/dht.go:98-103 | a word built from humidity and temperature tenths decodes to those tenths divided by 10 |
| Dht.Dht22Injective | dht/dht.go:98-103 | two words give the same DHT22 reading exactly when they are equal |
| Dht.Dht22Example | dht/dht.go:98-103 | the word 0x019000C8 reads as 40.0 % and 20.0 C |
| Dht.Dht22NoSign | dht/dht.go:98-103 | a temperature word with bit 15 set is not treated as negative: 0x8001 reads as 3276.9 |
| Dht.Decode | dht/dht.go:77-103 | reference definition of the variant dispatch: DHT11 reports bytes 0 and 2 of the word, DHT22 ten times its halves' big-endian values divided by 10; neither is ever negative |
| Dht.DecodeReply | dht/dht.go:77-103 | an error passes through unchanged with the zero `Result`; without an error, DHT11 reports bytes 0 and 2 of the word and DHT22 its tenths |
| Ints.CInt | dht/dht.go:37 | `C.int(x)` is the only `int32` value congruent to `x` modulo 2^32, so values already in range are kept |
| Ints.CIntUnique | dht/dht.go:37 | any `int32` value congruent to `x` modulo 2^32 is `C.int(x)` |
| Dht.NewSensor | dht/dht.go:35-39 | a new sensor has the chosen variant, the pin converted by `C.int` (unchanged when within `int32`), the given counter, a last timestamp of 0, a LOW last level and log level 0 |
| Dht.Verbose | dht/dht.go:42-44 | the level reaches the C state as `C.int(level)`, unchanged when within `int32`, and no other field changes |
| Dht.WideValuesWrap | dht/dht.go:35-44 | a pin or level that differs from an `int32` value c by a multiple of 2^32 arrives in the driver as c, and a failed read then names pin c |
| Dht.Read | dht/dht.go:77-103 | one wrapper read: the error is the wrapper's, a failure gives the zero `Result`, a success decodes the word by the sensor's fixed variant, and the variant is kept |
| Dht.Dht11ReadsFrame | dht/dht.go:77-86 | a successful DHT11 read reports received byte 0 as humidity and byte 2 as temperature, and the frame passed the checksum |
| Dht.SilentLineReadsZeroResult | dht/dht.go:77-103 | a sensor of either variant whose line stays LOW reports 0 % and 0 C with a `nil` error |
| Dht.ReadFailureNamesPin | dht/dht.go:47-54 | a failed read gives the zero `Result` and an error from which the sensor's pin parses back |

## Left out

- GPIO access and hardware timing are not modelled. This covers the
  `bcm2835_*` calls, the start signal and the wait for the response in
  `begin_sense` (dht/dht.c:73-87), and `gettimeofday`. They appear as
  inputs: the response clock reading and level, and one event (timeout or
  edge with its clock reading) per pulse read.
- `get_max_counter` (dht/dht.c:15-32) is not modelled, because it calibrates
  against wall-clock time. Its result is an input to `Pulse.Init`.
- Pulse.WaitForChange: requires that the samples settle the busy-wait. The
  source loops forever on a line that never changes when `max_counter` lies
  outside [0, 65535], and that case is not modelled.
- Writing log lines to stderr is left out. For the same handshake and
  pulse events, `Driver.LogLevelIrrelevant` shows that the log level changes
  neither the return code, the output nor the state apart from the level.
- The timing effect of those diagnostics is not modelled. They run between
  timed pulse reads. At any non-zero level these are the timeout message
  (dht/dht.c:56), and "Ready to signal" (dht/dht.c:105) and "Read 40bits"
  (dht/dht.c:114), which both run between the second handshake read and
  the first bit read. Above level 1 there are also the extra
  `bcm2835_gpio_lev` and `fprintf` calls (dht/dht.c:92-100, 120-128). On hardware this lengthens the
  widths measured after them. The events are inputs here, so their effect
  on the events is outside the model.
- The `init` panic when `bcm2835_init` fails (dht/dht.go:11-15) is left out.
  It is process-level initialisation of a foreign library.
- Dht.Dht22Decode: values are exact reals. The source converts to
  `float32` and divides by 10 in `float32`, and that rounding is not
  modelled.
- Dht.Dht11Decode: values are exact reals. The `float32` conversion is
  exact for 0..255, so nothing is lost.
- `server/server.go` and `main.go` are left out. They are HTTP, JSON and
  flag plumbing around `Read`.
- Concurrent reads of one sensor are left out. The driver state is passed
  explicitly through each call.
