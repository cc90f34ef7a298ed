/**
 The integer part of the Windows wall-clock read in `Util::Timer`.

 A FILETIME counts 100-nanosecond intervals since 1 January 1601 (UTC) in two
 32-bit halves. `FileTimeToInt64` joins the halves through a ULARGE_INTEGER;
 `gettimeofday` joins them again with a shift and an OR, divides by ten to get
 microseconds, moves the epoch to 1 January 1970 and takes the microsecond
 remainder. The seconds field is computed in floating point and is not part
 of this module.
 */
module FileTime {
  import opened CInt

  /** FILETIME: `dwHighDateTime` and `dwLowDateTime`. */
  datatype FileTime = FileTime(high: uint32, low: uint32)

  /** Microseconds between 1601-01-01 and 1970-01-01. */
  const DELTA_EPOCH_IN_MICROSECS: int := 11644473600000000

  /** The `QuadPart` of a ULARGE_INTEGER whose `HighPart` and `LowPart` are
      the two halves. */
  function QuadPart(ft: FileTime): (u: uint64)
    ensures u / TWO_32 == ft.high
    ensures u % TWO_32 == ft.low
  {
    ft.high * TWO_32 + ft.low
  }

  /** `FileTimeToInt64`: the unsigned quad part returned as `__int64`. */
  function FileTimeToInt64(ft: FileTime): (r: int64)
    ensures ft.high < 0x8000_0000 ==> r == ft.high * TWO_32 + ft.low
    ensures ft.high >= 0x8000_0000 ==> r < 0
    ensures r % TWO_64 == ft.high * TWO_32 + ft.low
  {
    ToInt64(QuadPart(ft))
  }

  /** The second join in `gettimeofday`: the high half is moved 32 bits up
      in a signed 64-bit variable, the low half is OR-ed into the vacated
      bits, and the resulting bit pattern is read as a signed value. */
  function ShiftOr(ft: FileTime): (r: int64)
    ensures r == FileTimeToInt64(ft)
  {
    // The shifted bit pattern keeps all 32 bits of `high`; only its signed
    // reading can wrap.
    var shifted: uint64 := ft.high * TWO_32;
    var pattern := BitOr(shifted, ft.low);
    Pow2Value32();
    BitOrDisjoint(ft.high, ft.low, 32);
    ToInt64(pattern)
  }

  /** Both ways of joining the halves give the same 64-bit value. */
  lemma ShiftOrIsFileTimeToInt64(ft: FileTime)
    ensures ShiftOr(ft) == FileTimeToInt64(ft)
    ensures ft.high < 0x8000_0000 ==> ShiftOr(ft) == ft.high * TWO_32 + ft.low
  {
    Pow2Value32();
    BitOrDisjoint(ft.high, ft.low, 32);
  }

  lemma Pow2Value32()
    ensures Pow2(32) == TWO_32
  {
    assert Pow2(8) == 256;
    assert Pow2(16) == 65536;
    assert Pow2(24) == 16777216;
    assert Pow2(32) == TWO_32;
  }

  /** Microseconds since the Unix epoch: the joined value divided by ten
      with C's truncating division, less the 1601-to-1970 offset. */
  function UnixMicros(ft: FileTime): (r: int64)
    ensures ShiftOr(ft) >= 0 ==> r == ShiftOr(ft) / 10 - DELTA_EPOCH_IN_MICROSECS
  {
    TruncDiv(ShiftOr(ft), 10) - DELTA_EPOCH_IN_MICROSECS
  }

  /** The microsecond field: C's remainder of the microsecond count by one
      million, which keeps the sign of the count. */
  function TvUsec(ft: FileTime): (r: int)
    ensures -(USEC_PER_SEC as int) < r < USEC_PER_SEC
    ensures UnixMicros(ft) >= 0 ==> r == UnixMicros(ft) % USEC_PER_SEC
  {
    TruncRem(UnixMicros(ft), USEC_PER_SEC)
  }

  /** A valid FILETIME (below 2^63) at or after 1970 gives a microsecond field
      in [0, 1000000), namely the sub-second part of the time since 1970. */
  lemma TvUsecInRange(ft: FileTime)
    requires ft.high < 0x8000_0000
    requires QuadPart(ft) / 10 >= DELTA_EPOCH_IN_MICROSECS
    ensures 0 <= TvUsec(ft) < USEC_PER_SEC
    ensures TvUsec(ft) == (QuadPart(ft) / 10 - DELTA_EPOCH_IN_MICROSECS) % USEC_PER_SEC
  {
    ShiftOrIsFileTimeToInt64(ft);
  }
}
