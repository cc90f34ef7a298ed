/**
 The elapsed-time part of `Util::Timer::_compute`: the difference of two
 `timeval` readings, normalised so that its microsecond field is in range.

 The source then converts the pair to floating-point seconds; here the
 difference is kept as whole microseconds.
 */
module Interval {
  import opened CInt

  /** A `struct timeval`: whole seconds and microseconds. */
  datatype TimeVal = TimeVal(sec: int, usec: int)

  /** A reading whose microsecond field is in [0, 1000000). */
  predicate Normal(tv: TimeVal)
  {
    0 <= tv.usec < USEC_PER_SEC
  }

  /** The instant a reading denotes, in microseconds. */
  function Micros(tv: TimeVal): int
  {
    tv.sec * USEC_PER_SEC + tv.usec
  }

  /** `stop - start` with a one-second borrow when the microsecond
      difference is negative. */
  function Difference(start: TimeVal, stop: TimeVal): (d: TimeVal)
    ensures Micros(d) == Micros(stop) - Micros(start)
    ensures Normal(start) && Normal(stop) ==> Normal(d)
  {
    var sec := stop.sec - start.sec;
    var usec := stop.usec - start.usec;
    if usec < 0 then TimeVal(sec - 1, usec + USEC_PER_SEC)
    else TimeVal(sec, usec)
  }

  /** The normalised difference of two normal readings is the Euclidean
      split of the microsecond difference into seconds and microseconds. */
  lemma DifferenceIsEuclideanSplit(start: TimeVal, stop: TimeVal)
    requires Normal(start) && Normal(stop)
    ensures Difference(start, stop).sec == (Micros(stop) - Micros(start)) / USEC_PER_SEC
    ensures Difference(start, stop).usec == (Micros(stop) - Micros(start)) % USEC_PER_SEC
  {
    var d := Difference(start, stop);
    var n := Micros(stop) - Micros(start);
    assert n == d.sec * 1000000 + d.usec;
  }

  /** With readings in the 32-bit `long` range of non-negative seconds, the
      normalised difference fits in a 32-bit `long` again. */
  lemma DifferenceFitsLong(start: TimeVal, stop: TimeVal)
    requires 0 <= start.sec < 0x8000_0000 && 0 <= stop.sec < 0x8000_0000
    requires Normal(start) && Normal(stop)
    ensures -0x8000_0000 <= Difference(start, stop).sec < 0x8000_0000
    ensures -0x8000_0000 <= Difference(start, stop).usec < 0x8000_0000
  {
  }
}
