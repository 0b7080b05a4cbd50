/** `begin_sense` and `dht_read` of the C driver: the start handshake, the
    40-bit frame read, the checksum test and the packing of the reading. */
module Driver {
  import opened Ints
  import opened Clock
  import opened Pulse
  import opened Frame

  /** Shortest accepted width of the second handshake pulse, in us. */
  const MIN_RESPONSE_WIDTH: u64 := 70

  /** What the line does during `begin_sense`, once the start signal has been
      sent and the line has been seen LOW: the clock reading and the level
      sampled right after, then the two pulses that are dropped. */
  datatype Handshake = Handshake(
    response: Timeval,
    responseLevel: Level,
    first: PulseEvent,
    second: PulseEvent)

  datatype Sense = Sense(ok: bool, width: u64, state: DhtState)

  /** The state `begin_sense` starts its pulse reads from: the response
      reading becomes the last timestamp and the sampled level the last
      level; pin, counter and log level are kept. */
  function ResponseState(s: DhtState, hs: Handshake): (r: DhtState)
    ensures r.lastTimestamp == GetTimestamp(hs.response) && r.lastLevel == hs.responseLevel
    ensures r.pin == s.pin && r.maxCounter == s.maxCounter && r.loglevel == s.loglevel
  {
    s.(lastTimestamp := GetTimestamp(hs.response), lastLevel := hs.responseLevel)
  }

  /** Number of edges among the two handshake pulses. */
  function EdgeCount(hs: Handshake): nat {
    (if hs.first.Edge? then 1 else 0) + (if hs.second.Edge? then 1 else 0)
  }

  /** `begin_sense`: record the response time and level, drop two pulses and
      accept exactly when the second pulse lasted at least 70 us and the line
      was last seen LOW. The second width is 100 us when that pulse timed
      out, and otherwise the `uint64_t` time from the last edge before it
      (or from the response, when the first pulse timed out). Each edge
      flips the recorded level, so the final level is LOW exactly when the
      response level was LOW and an even number of edges were seen. The bit
      reads start from the last handshake edge, or from the response reading
      when neither pulse was an edge. */
  function BeginSense(s: DhtState, hs: Handshake): (r: Sense)
    ensures hs.second.TimedOut? ==> r.width == TIMEOUT_WIDTH
    ensures hs.second.Edge? && hs.first.Edge? ==>
              r.width == (GetTimestamp(hs.second.now) - GetTimestamp(hs.first.now)) % TWO_64
    ensures hs.second.Edge? && hs.first.TimedOut? ==>
              r.width == (GetTimestamp(hs.second.now) - GetTimestamp(hs.response)) % TWO_64
    ensures r.ok <==> r.width >= MIN_RESPONSE_WIDTH &&
                      ((hs.responseLevel == Low) == (EdgeCount(hs) % 2 == 0))
    ensures r.state.lastTimestamp
            == LastEdgeStamp(GetTimestamp(hs.response), [hs.first, hs.second])
    ensures r.state.lastLevel
            == if EdgeCount(hs) % 2 == 0 then hs.responseLevel else Flip(hs.responseLevel)
    ensures r.state.pin == s.pin && r.state.maxCounter == s.maxCounter
    ensures r.state.loglevel == s.loglevel
  {
    var s0 := ResponseState(s, hs);
    assert [hs.first, hs.second][..1] == [hs.first];
    var p1 := ReadPulseWidth(s0, hs.first);
    assert [hs.first][..0] == [];
    assert p1.state.lastTimestamp == LastEdgeStamp(GetTimestamp(hs.response), [hs.first]);
    var p2 := ReadPulseWidth(p1.state, hs.second);
    var bad := p2.width < MIN_RESPONSE_WIDTH || p2.state.lastLevel != Low;
    Sense(!bad, p2.width, p2.state)
  }

  /** A second handshake pulse that times out reports 100 us, which passes
      the width test: with a LOW response level and no edge at all the
      handshake is accepted although the sensor never toggled the line. */
  lemma SilentLineAccepted(s: DhtState, response: Timeval)
    ensures BeginSense(s, Handshake(response, Low, TimedOut, TimedOut)).ok
  {
  }

  /** A whole read on a line that stays LOW succeeds with the word 0: every
      pulse read times out and reports 100 us, a low pulse of 100 us is out
      of range so every bit is 0, and the all-zero frame passes the checksum
      test. */
  lemma SilentLineReadsZero(s: DhtState, output: u32, response: Timeval)
    ensures var r := DhtRead(s, output, Handshake(response, Low, TimedOut, TimedOut),
                             seq(FRAME_WIDTHS, _ => TimedOut));
            r.ret == 1 && r.output == 0
  {
    var hs := Handshake(response, Low, TimedOut, TimedOut);
    var events: seq<PulseEvent> := seq(FRAME_WIDTHS, _ => TimedOut);
    var widths := ReadWidths(BeginSense(s, hs).state, events).widths;
    assert forall i :: 0 <= i < FRAME_WIDTHS ==> widths[i] == TIMEOUT_WIDTH;
    FrameOfNoBits(widths);
    var r := DhtRead(s, output, hs, events);
    PackUnpack(r.output, 0);
  }

  /** A regular response (LOW, then two edges) is accepted exactly when the
      second pulse lasted at least 70 us. */
  lemma RegularResponse(s: DhtState, response: Timeval, t1: Timeval, t2: Timeval)
    ensures var hs := Handshake(response, Low, Edge(t1), Edge(t2));
            BeginSense(s, hs).ok <==> BeginSense(s, hs).width >= MIN_RESPONSE_WIDTH
  {
  }

  datatype ReadOutcome = ReadOutcome(ret: int, output: u32, state: DhtState)

  /** The five bytes `dht_read` receives after the handshake: the frame the
      80 pulse widths encode. */
  function ReceivedFrame(s: DhtState, hs: Handshake, events: seq<PulseEvent>): (data: seq<byte>)
    requires |events| == FRAME_WIDTHS
    ensures |data| == FRAME_BYTES
  {
    FrameOf(ReadWidths(BeginSense(s, hs).state, events).widths)
  }

  /** `dht_read`. `output` is the caller's variable; it is written only on
      success. The read fails, returning 0, when the handshake is refused
      (no bit is read then) or when the data bytes do not add up to the
      checksum byte; otherwise it returns 1 and the packed data bytes. */
  function DhtRead(s: DhtState, output: u32, hs: Handshake, events: seq<PulseEvent>)
    : (r: ReadOutcome)
    requires |events| == FRAME_WIDTHS
    ensures r.ret == 0 || r.ret == 1
    ensures r.ret == 0 ==> r.output == output
    ensures !BeginSense(s, hs).ok ==> r.ret == 0 && r.state == BeginSense(s, hs).state
    ensures r.ret == 1 <==> BeginSense(s, hs).ok && ChecksumMatches(ReceivedFrame(s, hs, events))
    ensures r.ret == 1 ==>
              var data := ReceivedFrame(s, hs, events);
              && Unpack(r.output) == data[..4]
              && DataSum(data) <= 255
    ensures r.state.pin == s.pin && r.state.maxCounter == s.maxCounter
    ensures r.state.loglevel == s.loglevel
  {
    var sense := BeginSense(s, hs);
    if !sense.ok then
      ReadOutcome(0, output, sense.state)
    else
      var read := ReadWidths(sense.state, events);
      var data := FrameOf(read.widths);
      if !ChecksumMatches(data) then
        ReadOutcome(0, output, read.state)
      else
        var w := Pack(data);
        assert Unpack(w) == data[..4];
        ReadOutcome(1, w, read.state)
  }

  /** A frame whose checksum byte is the low 8 bits of a data sum above 255
      is refused, since the sum is compared without reduction modulo 256. */
  lemma WideSumRefused(data: seq<byte>)
    requires |data| == FRAME_BYTES
    requires DataSum(data) > 255
    ensures !ChecksumMatches(data)
  {
  }

  /** Pulse reads do not depend on the log level, and keep it. */
  lemma {:induction false} ReadWidthsLogLevel(s: DhtState, level: i32, events: seq<PulseEvent>)
    ensures ReadWidths(SetLogLevel(s, level), events).widths == ReadWidths(s, events).widths
    ensures ReadWidths(SetLogLevel(s, level), events).state
            == SetLogLevel(ReadWidths(s, events).state, level)
    decreases |events|
  {
    if |events| > 0 {
      var p := ReadPulseWidth(s, events[0]);
      assert ReadPulseWidth(SetLogLevel(s, level), events[0])
             == PulseRead(p.width, SetLogLevel(p.state, level));
      ReadWidthsLogLevel(p.state, level, events[1..]);
    }
  }

  /** The log level only governs diagnostics: a read under any level returns
      the same code and output and ends in the same state, apart from the
      level itself. */
  lemma LogLevelIrrelevant(
    s: DhtState, level: i32, output: u32, hs: Handshake, events: seq<PulseEvent>)
    requires |events| == FRAME_WIDTHS
    ensures var r, r' := DhtRead(s, output, hs, events),
                         DhtRead(SetLogLevel(s, level), output, hs, events);
            r'.ret == r.ret && r'.output == r.output && r'.state == SetLogLevel(r.state, level)
  {
    var sense := BeginSense(s, hs);
    var sense' := BeginSense(SetLogLevel(s, level), hs);
    assert ResponseState(SetLogLevel(s, level), hs) == SetLogLevel(ResponseState(s, hs), level);
    assert sense'.ok == sense.ok && sense'.state == SetLogLevel(sense.state, level);
    ReadWidthsLogLevel(sense.state, level, events);
  }
}
