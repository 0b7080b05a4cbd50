/** The C driver's per-sensor state (`struct dht_sensor`) and the pulse-width
    reader that measures the time between two level changes of the data line.
    The GPIO line is abstracted: a pulse read either times out or observes a
    level change at some wall-clock reading. */
module Pulse {
  import opened Ints
  import opened Options
  import opened Clock

  /** Level of the data line, as `bcm2835_gpio_lev` reports it. */
  datatype Level = Low | High

  function Flip(l: Level): Level {
    if l == Low then High else Low
  }

  /** `struct dht_sensor`; the pin, counter and log level are C `int`s. */
  datatype DhtState = DhtState(
    pin: i32,
    maxCounter: i32,
    lastTimestamp: u64,
    lastLevel: Level,
    loglevel: i32)

  /** Width returned by a pulse read that gave up waiting. */
  const TIMEOUT_WIDTH: u64 := 100

  /** `dht_init`. The calibrated counter is an input here, since its
      calibration measures wall-clock time; it is a `uint16_t` in the source. */
  function Init(pin: i32, maxCounter: u16): (s: DhtState)
    ensures s.pin == pin && s.maxCounter == maxCounter
    ensures s.lastTimestamp == 0 && s.lastLevel == Low && s.loglevel == 0
  {
    DhtState(pin, maxCounter, 0, Low, 0)
  }

  /** `dht_set_loglevel`: stores the level and changes nothing else. */
  function SetLogLevel(s: DhtState, level: i32): (r: DhtState)
    ensures r.loglevel == level
    ensures r.pin == s.pin && r.maxCounter == s.maxCounter
    ensures r.lastTimestamp == s.lastTimestamp && r.lastLevel == s.lastLevel
  {
    s.(loglevel := level)
  }

  /** The number of consecutive unchanged samples after which the busy-wait
      of `read_pulse_width` gives up. Its counter is a `uint16_t` that is
      incremented before being compared with the `int` field `max_counter`:
      a field of 0 is met only after the counter wraps (65536 samples), and a
      field outside [0, 65535] is never met. */
  function TimeoutLimit(maxCounter: int): (r: Option<nat>)
    ensures r.Some? ==> 1 <= r.value <= TWO_16 && r.value % TWO_16 == maxCounter
    ensures r.None? <==> maxCounter < 0 || TWO_16 <= maxCounter
  {
    if maxCounter == 0 then Some(TWO_16)
    else if 0 < maxCounter < TWO_16 then Some(maxCounter)
    else None
  }

  /** The busy-wait gives up on these samples: the limit exists, is reached
      within them, and every sample up to it shows the old level. */
  predicate TimesOut(last: Level, maxCounter: int, samples: seq<Level>) {
    var limit := TimeoutLimit(maxCounter);
    && limit.Some?
    && limit.value <= |samples|
    && forall j :: 0 <= j < limit.value ==> samples[j] == last
  }

  /** The samples are enough to decide the busy-wait: the line changes within
      them, or the limit is reached within them. (On an unchanging line with
      no reachable limit the source loops forever.) */
  predicate Settles(last: Level, maxCounter: int, samples: seq<Level>) {
    || (exists j :: 0 <= j < |samples| && samples[j] != last)
    || (TimeoutLimit(maxCounter).Some? && TimeoutLimit(maxCounter).value <= |samples|)
  }

  datatype Poll = PollTimedOut | Changed(at: nat)

  /** The busy-wait of `read_pulse_width`, over the successive samples of the
      data line: it reports the index of the first sample that differs from
      the last known level, unless the counter reaches `max_counter` first. */
  method WaitForChange(last: Level, maxCounter: int, samples: seq<Level>) returns (p: Poll)
    requires Settles(last, maxCounter, samples)
    ensures p.PollTimedOut? <==> TimesOut(last, maxCounter, samples)
    ensures p.Changed? ==> p.at < |samples| && samples[p.at] != last
    ensures p.Changed? ==> forall j :: 0 <= j < p.at ==> samples[j] == last
    ensures p.Changed? && TimeoutLimit(maxCounter).Some? ==> p.at < TimeoutLimit(maxCounter).value
  {
    var limit := TimeoutLimit(maxCounter);
    var cnt: u16 := 0;
    var i := 0;
    while i < |samples| && samples[i] == last
      invariant 0 <= i <= |samples|
      invariant cnt == i % TWO_16
      invariant forall j :: 0 <= j < i ==> samples[j] == last
      invariant limit.Some? ==> i < limit.value
      decreases |samples| - i
    {
      cnt := (cnt + 1) % TWO_16;
      i := i + 1;
      if cnt == maxCounter {
        assert limit.Some? && i == limit.value;
        return PollTimedOut;
      }
    }
    assert i < |samples|;
    p := Changed(i);
  }

  /** What one pulse read observes once the hardware is abstracted. */
  datatype PulseEvent = TimedOut | Edge(now: Timeval)

  datatype PulseRead = PulseRead(width: u64, state: DhtState)

  /** `read_pulse_width`. On a timeout it returns 100 and leaves the state
      alone. On a level change observed at `now` it returns the elapsed
      `uint64` time since the last change, records the new level and makes
      `now` the last timestamp, so the old timestamp plus the width gives the
      new one modulo 2^64. */
  function ReadPulseWidth(s: DhtState, ev: PulseEvent): (r: PulseRead)
    ensures ev.TimedOut? ==> r.width == TIMEOUT_WIDTH && r.state == s
    ensures ev.Edge? ==>
              && r.state.lastLevel == Flip(s.lastLevel)
              && r.state.lastTimestamp == GetTimestamp(ev.now)
              && (s.lastTimestamp + r.width) % TWO_64 == r.state.lastTimestamp
              && (s.lastTimestamp <= r.state.lastTimestamp ==>
                    r.width == r.state.lastTimestamp - s.lastTimestamp)
    ensures r.state.pin == s.pin && r.state.maxCounter == s.maxCounter
    ensures r.state.loglevel == s.loglevel
  {
    match ev
    case TimedOut => PulseRead(TIMEOUT_WIDTH, s)
    case Edge(now) =>
      var timestamp := GetTimestamp(now);
      var width := (timestamp - s.lastTimestamp) % TWO_64;
      PulseRead(width, s.(lastLevel := Flip(s.lastLevel), lastTimestamp := timestamp))
  }

  /** `read_pulse_width` over the raw line samples and the clock reading taken
      after the change: the busy-wait decides whether this is a timeout or an
      edge, and the pulse read proceeds as above. */
  method SamplePulse(s: DhtState, samples: seq<Level>, clock: Timeval) returns (r: PulseRead)
    requires Settles(s.lastLevel, s.maxCounter, samples)
    ensures TimesOut(s.lastLevel, s.maxCounter, samples) ==>
              r.width == TIMEOUT_WIDTH && r.state == s
    ensures !TimesOut(s.lastLevel, s.maxCounter, samples) ==>
              r == ReadPulseWidth(s, Edge(clock))
  {
    var p := WaitForChange(s.lastLevel, s.maxCounter, samples);
    if p.PollTimedOut? {
      r := PulseRead(TIMEOUT_WIDTH, s);
    } else {
      var timestamp := GetTimestamp(clock);
      var width := (timestamp - s.lastTimestamp) % TWO_64;
      r := PulseRead(width, s.(lastLevel := samples[p.at], lastTimestamp := timestamp));
    }
  }

  datatype Widths = Widths(widths: seq<u64>, state: DhtState)

  /** Successive pulse reads, each starting from the state the previous one
      left behind. */
  function ReadWidths(s: DhtState, events: seq<PulseEvent>): (r: Widths)
    ensures |r.widths| == |events|
    ensures r.state.pin == s.pin && r.state.maxCounter == s.maxCounter
    ensures r.state.loglevel == s.loglevel
    ensures forall k :: 0 <= k < |events| && events[k].TimedOut? ==> r.widths[k] == TIMEOUT_WIDTH
    decreases |events|
  {
    if |events| == 0 then Widths([], s)
    else
      var first := ReadPulseWidth(s, events[0]);
      var rest := ReadWidths(first.state, events[1..]);
      Widths([first.width] + rest.widths, rest.state)
  }

  /** Time from `from` to `to` in `uint64_t` subtraction, which wraps when
      `to` is the smaller. */
  function Elapsed(from: u64, to: u64): (r: u64)
    ensures (from + r) % TWO_64 == to
  {
    (to - from) % TWO_64
  }

  /** The timestamp of the last edge among `events`, or `t` when none of
      them is an edge. */
  function LastEdgeStamp(t: u64, events: seq<PulseEvent>): u64
    decreases |events|
  {
    if |events| == 0 then t
    else if events[|events| - 1].Edge? then GetTimestamp(events[|events| - 1].now)
    else LastEdgeStamp(t, events[..|events| - 1])
  }

  /** The number of edges among `events`. */
  function EdgesIn(events: seq<PulseEvent>): nat
    decreases |events|
  {
    if |events| == 0 then 0
    else EdgesIn(events[..|events| - 1]) + (if events[|events| - 1].Edge? then 1 else 0)
  }

  /** Looking at the first event on its own and then at the rest gives the
      same last edge as looking at all of them. */
  lemma {:induction false} LastEdgeCons(t: u64, e: PulseEvent, rest: seq<PulseEvent>)
    ensures LastEdgeStamp(t, [e] + rest) == LastEdgeStamp(LastEdgeStamp(t, [e]), rest)
    decreases |rest|
  {
    assert [e][..0] == [];
    if |rest| > 0 {
      var all := [e] + rest;
      assert all[..|all| - 1] == [e] + rest[..|rest| - 1];
      LastEdgeCons(t, e, rest[..|rest| - 1]);
    } else {
      assert [e] + rest == [e];
    }
  }

  /** Edges are counted the same whether the first event is split off. */
  lemma {:induction false} EdgesCons(e: PulseEvent, rest: seq<PulseEvent>)
    ensures EdgesIn([e] + rest) == (if e.Edge? then 1 else 0) + EdgesIn(rest)
    decreases |rest|
  {
    assert [e][..0] == [];
    if |rest| > 0 {
      var all := [e] + rest;
      assert all[..|all| - 1] == [e] + rest[..|rest| - 1];
      EdgesCons(e, rest[..|rest| - 1]);
    } else {
      assert [e] + rest == [e];
    }
  }

  /** Each edge's width is the `uint64_t` time since the previous edge, or
      since the starting timestamp for the first edge. */
  lemma {:induction false} EdgeWidth(s: DhtState, events: seq<PulseEvent>, k: nat)
    requires k < |events| && events[k].Edge?
    ensures ReadWidths(s, events).widths[k]
            == Elapsed(LastEdgeStamp(s.lastTimestamp, events[..k]), GetTimestamp(events[k].now))
    decreases k
  {
    var first := ReadPulseWidth(s, events[0]);
    var tail := events[1..];
    if k == 0 {
      assert events[..0] == [];
    } else {
      EdgeWidth(first.state, tail, k - 1);
      assert events[..k] == [events[0]] + tail[..k - 1];
      LastEdgeCons(s.lastTimestamp, events[0], tail[..k - 1]);
      assert [events[0]][..0] == [];
      assert first.state.lastTimestamp == LastEdgeStamp(s.lastTimestamp, [events[0]]);
    }
  }

  /** After the reads, the last timestamp is that of the last edge. */
  lemma {:induction false} ReadWidthsLastStamp(s: DhtState, events: seq<PulseEvent>)
    ensures ReadWidths(s, events).state.lastTimestamp == LastEdgeStamp(s.lastTimestamp, events)
    decreases |events|
  {
    if |events| > 0 {
      var first := ReadPulseWidth(s, events[0]);
      var tail := events[1..];
      ReadWidthsLastStamp(first.state, tail);
      assert events == [events[0]] + tail;
      LastEdgeCons(s.lastTimestamp, events[0], tail);
      assert [events[0]][..0] == [];
    }
  }

  /** After the reads, the level has flipped once per edge. */
  lemma {:induction false} ReadWidthsLastLevel(s: DhtState, events: seq<PulseEvent>)
    ensures ReadWidths(s, events).state.lastLevel
            == if EdgesIn(events) % 2 == 0 then s.lastLevel else Flip(s.lastLevel)
    decreases |events|
  {
    if |events| > 0 {
      var first := ReadPulseWidth(s, events[0]);
      var tail := events[1..];
      ReadWidthsLastLevel(first.state, tail);
      assert events == [events[0]] + tail;
      EdgesCons(events[0], tail);
    }
  }

  /** Every edge's width, at once. */
  lemma {:induction false} ReadWidthsEdges(s: DhtState, events: seq<PulseEvent>)
    ensures forall k :: 0 <= k < |events| && events[k].Edge? ==>
              ReadWidths(s, events).widths[k]
              == Elapsed(LastEdgeStamp(s.lastTimestamp, events[..k]), GetTimestamp(events[k].now))
  {
    forall k | 0 <= k < |events| && events[k].Edge?
      ensures ReadWidths(s, events).widths[k]
              == Elapsed(LastEdgeStamp(s.lastTimestamp, events[..k]), GetTimestamp(events[k].now))
    {
      EdgeWidth(s, events, k);
    }
  }
}
