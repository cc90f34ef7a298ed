# Util::Timer — a verified model

`Util::Timer` is a stopwatch for wall-clock and process CPU time. A timer is
stopped or running; `start` takes a wall-clock reading and a CPU-time reading,
`stop` takes a second pair and adds the interval to three accumulators
(elapsed, user and system time), `reset` zeroes them, and the accessors may
only be used while the timer is stopped. Alongside the stopwatch sit a
Windows replacement for `gettimeofday`, built on FILETIME arithmetic, and the
`formatTime` formatter, which writes a duration as `[-]H:MM:SS` plus a
fraction.

This project models that code in Dafny and proves properties of the model:

- `cint.dfy` (module `CInt`): the fixed-width C integers the code uses, C's
  truncating `/` and `%`, the signed reading of an unsigned 64-bit value, and
  a bitwise OR on naturals.
- `filetime.dfy` (module `FileTime`): `FileTimeToInt64` and the integer part of
  `gettimeofday` (joining the two FILETIME halves, converting to microseconds
  since 1970, taking the microsecond field).
- `interval.dfy` (module `Interval`): the `timeval` difference with its
  one-second borrow, from `_compute`.
- `stopwatch.dfy` (module `Stopwatch`): the timer as an immutable value with
  the `stopped`/`running` state and integer accumulators. Clock readings are
  parameters. The `assert`s in the source become `requires` clauses.
- `decimal.dfy` (module `Decimal`): `%llu` and `%0Nllu` decimal text and a
  parser that reads it back.
- `format.dfy` (module `Format`): `formatTime` from the rounded tick count
  onward. `FormatTime` is what the code writes. `FormatTimeDocumented` is the
  `h:mm:ss.ss` form the header comment describes.

Units: the elapsed accumulator counts microseconds. The user and system
accumulators count CPU clock ticks. The CPU readings follow the Linux branch,
where `times` fills both the start and the stop marks.

The code and the header comment disagree on the fraction that `formatTime`
appends; the model follows the code (see "## Findings").

## Model

| member | source | states |
|---|---|---|
| `CInt.ToInt64` | buildW/util/timer.cc:32 | Returning the unsigned quad part as `__int64` keeps values below 2^63 and maps the rest to negatives congruent modulo 2^64 |
| `CInt.TruncDiv` | buildW/util/timer.cc:54 | C division by a positive divisor: the Euclidean quotient for non-negative values; for negative values a non-positive quotient whose remainder lies in (-b, 0], i.e. rounding toward zero |
| `CInt.TruncRem` | buildW/util/timer.cc:57 | C remainder: `a == (a / b) * b + r`, with `r` in [0, b) for non-negative `a` and in (-b, 0] for negative `a` |
| `CInt.BitOrDisjoint` | buildW/util/timer.cc:49-51 | OR-ing a value below 2^k into a value shifted left by k equals adding it |
| `FileTime.QuadPart` | buildW/util/timer.cc:29-32 | The 64-bit quad part gives back the high half as its quotient by 2^32 and the low half as its remainder |
| `FileTime.FileTimeToInt64` | buildW/util/timer.cc:27-33 | `FileTimeToInt64` is `high * 2^32 + low` when the high half is below 2^31, negative otherwise, and congruent to `high * 2^32 + low` modulo 2^64 in every case |
| `FileTime.ShiftOr` | buildW/util/timer.cc:49-51 | Shifting the high half 32 bits up in a signed 64-bit variable and OR-ing in the low half gives exactly the value `FileTimeToInt64` returns |
| `FileTime.ShiftOrIsFileTimeToInt64` | buildW/util/timer.cc:49-51 | The shift-or in `gettimeofday` yields the same value as `FileTimeToInt64`, namely `high * 2^32 + low` for valid file times |
| `FileTime.UnixMicros` | buildW/util/timer.cc:54-55 | For a non-negative 64-bit value the result is the microsecond count since 1970: value / 10 minus 11644473600000000 |
| `FileTime.TvUsec` | buildW/util/timer.cc:57 | `tv_usec` always lies strictly between -1000000 and 1000000, and equals the Euclidean remainder when the microsecond count is non-negative |
| `FileTime.TvUsecInRange` | buildW/util/timer.cc:49-57 | For a valid FILETIME at or after 1970, `tv_usec` is in [0, 1000000) and is the sub-second part of `ft / 10 - 11644473600000000` |
| `Interval.Difference` | buildW/util/timer.cc:73-78 | The borrowed difference denotes exactly `stop - start` in microseconds; for readings with `tv_usec` in [0, 1000000) its `usec` is in [0, 1000000) too |
| `Interval.DifferenceIsEuclideanSplit` | buildW/util/timer.cc:73-78 | For normal readings the borrowed `(sec, usec)` is the quotient and remainder of the microsecond difference by 1000000 |
| `Interval.DifferenceFitsLong` | buildW/util/timer.cc:73-74 | With non-negative 32-bit second counts, both fields of the difference fit a 32-bit `long` |
| `Stopwatch.New` | buildW/util/timer.hh:88-91 | A constructed timer is stopped with `_elapsed`, `_user` and `_system` all zero |
| `Stopwatch.Reset` | buildW/util/timer.hh:98-102 | From either state, `reset` yields stopped with all three accumulators zero and the marks untouched |
| `Stopwatch.ResetForgetsPast` | buildW/util/timer.hh:98-102 | Two reset timers answer every accessor alike and end in the same timer after any non-empty run of cycles: nothing observable depends on the prior state |
| `Stopwatch.Start` | buildW/util/timer.hh:104-123 | `start` requires stopped, ends running, records the two readings as the start marks and changes no accumulator |
| `Stopwatch.Compute` | buildW/util/timer.cc:69-91 | `_compute` adds the wall-clock difference in microseconds and the user and system tick differences since the start marks, and changes nothing else |
| `Stopwatch.Stop` | buildW/util/timer.hh:125-136 | `stop` requires running, ends stopped, and its only accumulator change is adding the interval's elapsed, user and system deltas |
| `Stopwatch.Cpu` | buildW/util/timer.hh:138-143 | `cpu` requires stopped and returns exactly `user() + system()` |
| `Stopwatch.MisuseViolatesGuards` | buildW/util/timer.hh:104-164 | A second `start` without `stop`, a `stop` after `stop`, `reset` or construction, and a query while running each break the asserted guard |
| `Stopwatch.OneCycle` | buildW/util/timer.hh:138-164 | After one start/stop cycle the timer is queryable again and each accessor moved by exactly that interval's delta; `cpu` moved by the sum of the CPU deltas |
| `Stopwatch.RunCycles` | buildW/util/timer.hh:104-136 | Any sequence of start/stop cycles on a stopped timer ends stopped |
| `Stopwatch.CyclesAccumulate` | buildW/util/timer.cc:79-84 | Each accumulator after N cycles is its old value plus the sum of the N per-cycle deltas |
| `Stopwatch.AccumulatedSinceReset` | buildW/util/timer.hh:97-164 | After N cycles since the last reset, `elapsed`, `user` and `system` return the sums of the per-cycle deltas and `cpu` returns the sum of user and system deltas |
| `Decimal.Dec` | buildW/util/timer.cc:115 | `%llu` text is non-empty, all digits, and has no leading zero unless it is "0" |
| `Decimal.ParseDec` | buildW/util/timer.cc:115 | Reading `%llu` text back yields the number |
| `Decimal.Pad` | buildW/util/timer.cc:115 | `%02llu`-style text is all digits and as long as the width or the unpadded text, whichever is longer |
| `Decimal.ParsePad` | buildW/util/timer.cc:115 | Reading zero-padded text back yields the number |
| `Decimal.DecLength` | buildW/util/timer.cc:122 | `%llu` text has at most k digits if and only if the number is below 10^k |
| `Decimal.PadWidth` | buildW/util/timer.cc:115 | A number below 10^w is padded to exactly w digits, so minutes and seconds below 60 take exactly 2 |
| `Format.ClampPrecision` | buildW/util/timer.cc:101-102 | The precision used is in 0..9: unchanged inside the range, 0 below it, 9 above it |
| `Format.PrecisionClamped` | buildW/util/timer.cc:101-102 | A precision above 9 formats as precision 9, and a negative precision formats as precision 0 |
| `Format.ComputeBase` | buildW/util/timer.cc:103-104 | The loop leaves `base == 10^precision` (loop invariant `base == 10^digit`), at most 10^9 |
| `Format.Split` | buildW/util/timer.cc:108-113 | `ticks == rsec * base + frac` with `frac < base`, `rsec == h*3600 + m*60 + s` with `m < 60` and `s < 60`, and `rsec <= ticks` |
| `Format.TicksOfSplit` | buildW/util/timer.cc:107-113 | Hours, minutes, seconds and fraction of the split together stand for the original tick count |
| `Format.ParseClockText` | buildW/util/timer.cc:115-116 | The prefix `[-]H:MM:SS` reads back as the same sign, hours, minutes and seconds, whatever text follows it |
| `Format.FormatTimeAsWritten` | buildW/util/timer.cc:115-123 | The output starts with the clock of `ticks / base` with `-` exactly when the input was negative; at precision 0 nothing follows, otherwise the `fmt` text and the unpadded decimal `frac` follow |
| `Format.ParseAsWrittenRoundTrip` | buildW/util/timer.cc:106-123 | Parsing the code's output at the same precision gives back the sign and the tick count |
| `Format.DocumentedFractionWidth` | buildW/util/timer.hh:51-52 | In the documented form the fraction takes exactly `precision` digits after the point |
| `Format.ParseDocumentedRoundTrip` | buildW/util/timer.hh:51-52 | Parsing the documented form at the same precision gives back the sign and the tick count |
| `Format.AsWrittenVersusDocumented` | buildW/util/timer.cc:118-123 | At precision 0 the two forms agree; for a positive precision they share the clock and the point and then differ, the code writing `%` where the documented form has a digit |
| `Format.ExampleZero` | buildW/util/timer.cc:118-123 | Zero seconds at precision 2: documented `0:00:00.00`, written `0:00:00.%02lld0` |
| `Format.ExampleRoundedWholeSeconds` | buildW/util/timer.cc:107-116 | 3662 ticks at precision 0 (3661.5 s rounded) format as `1:01:02` |
| `Format.ExampleNegative` | buildW/util/timer.cc:106-123 | -5 s at precision 2: documented `-0:00:05.00`, written `-0:00:05.%02lld0` |
| `Format.ExampleCarryIntoMinutes` | buildW/util/timer.cc:107-116 | 6000 ticks at precision 2 (59.999 s rounded) carry into the minutes: documented `0:01:00.00`, written `0:01:00.%02lld0` |
| `Format.FitsStaticBuffers` | buildW/util/timer.cc:98-122 | Every output is shorter than the 128-character `buf` and the format string shorter than the 10-character `fmt` |

## Left out

- Operating-system queries (`GetSystemTimeAsFileTime`, `GetTimeZoneInformation`, `GetCurrentProcessId`, `OpenProcess`, `GetProcessTimes`, `times`, `sysconf(_SC_CLK_TCK)`, `QueryPerformanceFrequency`): their results are parameters (a `FileTime`, a `TimeVal`, a `CpuMark`).
- Floating point: the `tv_sec` field computed as `(__int32)(tmpres*0.000001)`, the `double` accumulators, the `usec / 1e6` and tick-rate divisions, and `rint(fabs(sec) * base)`. `formatTime` starts from the sign and the rounded tick count.
- The Windows CPU-time branch of `start`, `stop` and `_compute`: it writes only `tms_stime` at start and reads uninitialised fields. The Linux branch is modelled.
- The static `buf` and `fmt` buffers: each call returns a fresh string; `FitsStaticBuffers` shows the text fits them.
- The ignored `tz` argument, the commented-out timezone code, and the constant `0` that `gettimeofday` returns.
- The destructor, which does nothing.
- The stop marks `_elapsed_stop` and `_cpu_stop`: `stop` consumes them at once, so they are parameters and not fields.
- `Stopwatch.Elapsed`, `Stopwatch.User`, `Stopwatch.System`: no contract of their own; what they return is stated by `OneCycle` and `AccumulatedSinceReset`.
- `Stopwatch.CanStart`, `Stopwatch.CanStop`, `Stopwatch.CanQuery`: no contract of their own (they are the asserted guards of buildW/util/timer.hh:107, 128 and 141-162); stated by the requires of `Start`, `Stop` and `Cpu` and by `MisuseViolatesGuards` and `OneCycle`.
- `CInt.BitOr`: no contract of its own; stated by `BitOrDisjoint`.
- `Format.ClockText`: no contract of its own; stated by `ParseClockText`.
- `Format.FmtText`: no contract of its own; stated by `FormatTimeAsWritten`, `AsWrittenVersusDocumented` and `FitsStaticBuffers`.
- `Format.FormatTime`: no contract of its own; stated by `FormatTimeAsWritten`, `ParseAsWrittenRoundTrip`, `AsWrittenVersusDocumented` and `FitsStaticBuffers`.
- `Format.FormatTimeDocumented`: no contract of its own; stated by `DocumentedFractionWidth`, `ParseDocumentedRoundTrip` and `AsWrittenVersusDocumented`.
- Stopwatch.Compute: accumulates user and system time in clock ticks rather than seconds, because the division by the tick rate is floating point.
- Stopwatch.Stop: the same tick units as `Compute` for the user and system deltas.
- Interval.Difference: uses unbounded integers rather than 32-bit `long`; `DifferenceFitsLong` shows no overflow for non-negative second counts.
- Stopwatch.New: the marks are uninitialised in the source; the model gives them zero readings, which no operation reads before `start` overwrites them.

## Findings

| source | as written | input that shows it | evidently intended | confidence | as-written member | corrected member |
|---|---|---|---|---|---|---|
| buildW/util/timer.cc:120-122 | `fmt` is built as the text `.%0<N>lld` and passed as the argument of `%s` in `"%s%llu"`, so the output gets that text followed by the unpadded fraction | `formatTime(0.0, 2)` gives `0:00:00.%02lld0` | `0:00:00.00`: a point and the fraction zero-padded to `precision` digits, as the header comment at buildW/util/timer.hh:51-52 describes | not executed; follows from the C format semantics | `Format.AsWrittenVersusDocumented` | `Format.ParseDocumentedRoundTrip` |
