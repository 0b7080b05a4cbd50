/** Wall-clock readings as `gettimeofday` returns them, and their conversion
    to a microsecond count in `uint64` arithmetic. */
module Clock {
  import opened Ints
  import opened Arith

  const USEC_PER_SEC: int := 1_000_000

  /** `struct timeval`: signed seconds and microseconds. */
  datatype Timeval = Timeval(sec: int, usec: int)

  /** A reading `gettimeofday` can produce: microseconds in [0, 10^6) and
      seconds since the epoch not negative. */
  predicate WellFormed(tv: Timeval) {
    tv.sec >= 0 && 0 <= tv.usec < USEC_PER_SEC
  }

  /** The exact number of microseconds a reading stands for. */
  function Micros(tv: Timeval): int {
    tv.sec * USEC_PER_SEC + tv.usec
  }

  /** Lexicographic order of readings: earlier second, or same second and
      not later microsecond. */
  predicate NotLater(a: Timeval, b: Timeval) {
    a.sec < b.sec || (a.sec == b.sec && a.usec <= b.usec)
  }

  /** `get_timestamp`: both fields are converted to `uint64` and combined
      with `uint64` multiplication and addition, so the result is the exact
      microsecond count reduced modulo 2^64. For a well-formed reading that
      fits in 64 bits the seconds and microseconds can be read back. */
  function GetTimestamp(tv: Timeval): (r: u64)
    ensures (r - Micros(tv)) % TWO_64 == 0
    ensures WellFormed(tv) && Micros(tv) < TWO_64 ==>
              r / USEC_PER_SEC == tv.sec && r % USEC_PER_SEC == tv.usec
  {
    var ts := ((tv.sec % TWO_64) * USEC_PER_SEC % TWO_64 + tv.usec % TWO_64) % TWO_64;
    ModMulAdd(tv.sec, tv.usec);
    ModCongruent(Micros(tv));
    MicrosSplit(tv);
    ts
  }

  /** x mod 2^64 differs from x by a multiple of 2^64. */
  lemma ModCongruent(x: int)
    ensures (x % TWO_64 - x) % TWO_64 == 0
  {
    ModShift(0, -(x / TWO_64), TWO_64);
  }

  /** A well-formed reading within 64 bits is its own remainder modulo 2^64,
      and splits back into seconds and microseconds. */
  lemma MicrosSplit(tv: Timeval)
    ensures WellFormed(tv) && Micros(tv) < TWO_64 ==>
              && Micros(tv) % TWO_64 == Micros(tv)
              && Micros(tv) / USEC_PER_SEC == tv.sec
              && Micros(tv) % USEC_PER_SEC == tv.usec
  {
    if WellFormed(tv) && Micros(tv) < TWO_64 {
      DivUnique(Micros(tv), TWO_64, 0, Micros(tv));
      DivUnique(Micros(tv), USEC_PER_SEC, tv.sec, tv.usec);
    }
  }

  /** Reducing the operands of `*` and `+` modulo 2^64 first does not change
      the result modulo 2^64. */
  lemma ModMulAdd(s: int, u: int)
    ensures ((s % TWO_64) * USEC_PER_SEC % TWO_64 + u % TWO_64) % TWO_64
            == (s * USEC_PER_SEC + u) % TWO_64
  {
    var a := (s % TWO_64) * USEC_PER_SEC;
    var q := s / TWO_64;
    assert s * USEC_PER_SEC == a + (q * USEC_PER_SEC) * TWO_64;
    ModSum(a, u);
    ModShift(a + u, q * USEC_PER_SEC, TWO_64);
  }

  /** (a mod M + b mod M) mod M == (a + b) mod M, for M = 2^64. */
  lemma ModSum(a: int, b: int)
    ensures (a % TWO_64 + b % TWO_64) % TWO_64 == (a + b) % TWO_64
  {
    assert a % TWO_64 + b % TWO_64 == (a + b) + (-(a / TWO_64) - b / TWO_64) * TWO_64;
    ModShift(a + b, -(a / TWO_64) - b / TWO_64, TWO_64);
  }

  /** Within the 64-bit range, later readings never give smaller timestamps,
      and distinct readings give distinct timestamps. */
  lemma TimestampMonotone(a: Timeval, b: Timeval)
    requires WellFormed(a) && WellFormed(b)
    requires Micros(a) < TWO_64 && Micros(b) < TWO_64
    ensures NotLater(a, b) <==> GetTimestamp(a) <= GetTimestamp(b)
    ensures a == b <==> GetTimestamp(a) == GetTimestamp(b)
  {
    var ta, tb := GetTimestamp(a), GetTimestamp(b);
    assert ta == Micros(a) && tb == Micros(b);
    if a.sec < b.sec {
      assert a.sec * USEC_PER_SEC + USEC_PER_SEC <= b.sec * USEC_PER_SEC;
    } else if b.sec < a.sec {
      assert b.sec * USEC_PER_SEC + USEC_PER_SEC <= a.sec * USEC_PER_SEC;
    }
  }
}
