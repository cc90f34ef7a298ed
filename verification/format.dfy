/**
 `Util::Timer::formatTime`, from the rounded tick count onward.

 The source rounds `|sec| * 10^precision` to a whole number of ticks in
 floating point; here the caller supplies that tick count and the sign of
 `sec`. The ticks are split into whole seconds and a fraction, the seconds
 into hours, minutes and seconds, and the text `[-]H:MM:SS` is written. For
 a positive precision the code then appends the text of the format string it
 built, `.%0<precision>lld`, followed by the fraction in plain decimal: the
 format string is passed as an argument to `%s` rather than used as a
 format. `FormatTimeDocumented` is the `h:mm:ss.ss` form the header
 describes, with the fraction zero-padded to `precision` digits.
 */
module Format {
  import opened CInt
  import opened Decimal

  datatype Option<T> = None | Some(value: T)

  /** The precision actually used: clamped to 0..9. */
  function ClampPrecision(precision: int): (p: nat)
    ensures p <= 9
    ensures 0 <= precision <= 9 ==> p == precision
    ensures precision < 0 ==> p == 0
    ensures precision > 9 ==> p == 9
  {
    var low := if precision < 0 then 0 else precision;
    if low > 9 then 9 else low
  }

  /** The counting loop that multiplies `base` by ten once per digit of
      precision. */
  method ComputeBase(precision: nat) returns (base: nat)
    requires precision <= 9
    ensures base == Pow10(precision)
    ensures base <= 1_000_000_000
  {
    base := 1;
    var digit := 0;
    while digit < precision
      invariant digit <= precision
      invariant base == Pow10(digit)
    {
      base := base * 10;
      digit := digit + 1;
    }
    Pow10Monotone(precision, 9);
  }

  lemma {:induction false} Pow10Monotone(a: nat, b: nat)
    requires a <= b
    ensures Pow10(a) <= Pow10(b)
    decreases b - a
  {
    if a < b {
      Pow10Monotone(a, b - 1);
    }
  }

  /** The five unsigned quantities computed from `ticks`. */
  datatype Parts = Parts(rsec: nat, frac: nat, h: nat, m: nat, s: nat)

  /** Splits the ticks by `base` into whole seconds and a remainder, then
      the seconds into hours, minutes within the hour and seconds within the
      minute, all with unsigned division. */
  function Split(ticks: uint64, base: nat): (r: Parts)
    requires base > 0
    ensures ticks == r.rsec * base + r.frac && r.frac < base
    ensures r.rsec == r.h * 3600 + r.m * 60 + r.s
    ensures r.m < 60 && r.s < 60
    ensures r.rsec <= ticks
  {
    var rsec := ticks / base;
    var h := rsec / 3600;
    var m := (rsec / 60) % 60;
    var s := rsec % 60;
    assert rsec / 3600 == (rsec / 60) / 60;
    assert rsec == (rsec / 60) * 60 + s;
    assert rsec / 60 == h * 60 + m;
    assert rsec <= ticks by { DivLe(ticks, base); }
    Parts(rsec, ticks % base, h, m, s)
  }

  lemma DivLe(n: nat, b: nat)
    requires b > 0
    ensures n / b <= n
  {
    var q := n / b;
    assert n == q * b + n % b;
    if q > n {
      MulGe(q, b);
    }
  }

  lemma MulGe(q: nat, b: nat)
    requires b >= 1
    ensures q * b >= q
  {
    assert q * b == q * (b - 1) + q;
  }

  /** The hours, minutes and seconds read from the `[-]H:MM:SS` prefix. */
  datatype Clock = Clock(neg: bool, h: nat, m: nat, s: nat)

  /** The clock prefix: a minus sign for a negative input, the hours
      unpadded, then minutes and seconds as two digits each, separated by
      colons (the format `%s%llu:%02llu:%02llu`). */
  function ClockText(c: Clock): string
  {
    (if c.neg then "-" else "") + UnsignedClockText(c)
  }

  /** `%llu:%02llu:%02llu` of the hours, minutes and seconds. */
  function UnsignedClockText(c: Clock): string
  {
    Dec(c.h) + ":" + Pad(2, c.m) + ":" + Pad(2, c.s)
  }

  /** The text of the fraction format the code builds for a precision: a
      point, a percent sign, a zero, the precision in decimal and `lld`. */
  function FmtText(p: nat): string
  {
    ".%0" + Dec(p) + "lld"
  }

  /** `formatTime` as the code writes it. */
  function FormatTime(neg: bool, ticks: uint64, precision: int): string
  {
    var p := ClampPrecision(precision);
    var parts := Split(ticks, Pow10(p));
    var prefix := ClockText(Clock(neg, parts.h, parts.m, parts.s));
    if p > 0 then prefix + FmtText(p) + Dec(parts.frac) else prefix
  }

  /** `formatTime` as the header describes it: `h:mm:ss` and, for a
      positive precision, a point and exactly `precision` fraction digits. */
  function FormatTimeDocumented(neg: bool, ticks: uint64, precision: int): string
  {
    var p := ClampPrecision(precision);
    var parts := Split(ticks, Pow10(p));
    var prefix := ClockText(Clock(neg, parts.h, parts.m, parts.s));
    if p > 0 then prefix + "." + Pad(p, parts.frac) else prefix
  }

  /** A clock read off the front of a text, and what follows it. */
  datatype ClockRead = ClockRead(clock: Clock, rest: string)

  /** Reads an optional `-`, then the unsigned clock. */
  function ParseLeadingClock(text: string): Option<ClockRead>
  {
    if |text| > 0 && text[0] == '-' then ParseUnsignedClock(text[1..], true)
    else ParseUnsignedClock(text, false)
  }

  /** Reads one or more hour digits, `:`, two minute digits, `:` and two
      second digits. */
  function ParseUnsignedClock(body: string, neg: bool): Option<ClockRead>
  {
    var n := LeadingDigits(body);
    if n == 0 || |body| < n + 6 then None
    else if body[n] != ':' || body[n + 3] != ':' then None
    else if !IsDigit(body[n + 1]) || !IsDigit(body[n + 2]) then None
    else if !IsDigit(body[n + 4]) || !IsDigit(body[n + 5]) then None
    else
      var mm := body[n + 1..n + 3];
      var ss := body[n + 4..n + 6];
      assert AllDigits(mm) && AllDigits(ss);
      Some(ClockRead(Clock(neg, Parse(body[..n]), Parse(mm), Parse(ss)), body[n + 6..]))
  }

  /** The unsigned part of the prefix reads back as the clock it was
      written from. */
  lemma ParseUnsignedClockText(c: Clock, rest: string)
    requires c.m < 60 && c.s < 60
    ensures ParseUnsignedClock(UnsignedClockText(c) + rest, c.neg) == Some(ClockRead(c, rest))
  {
    var hs, ms, ss := Dec(c.h), Pad(2, c.m), Pad(2, c.s);
    PadWidth(2, c.m);
    PadWidth(2, c.s);
    var tail := ":" + ms + ":" + ss + rest;
    var body := UnsignedClockText(c) + rest;
    assert body == hs + tail;
    LeadingDigitsOfAppend(hs, tail);
    var n := |hs|;
    assert body[..n] == hs;
    assert body[n + 1..n + 3] == ms;
    assert body[n + 4..n + 6] == ss;
    assert body[n + 6..] == rest;
    ParseDec(c.h);
    ParsePad(2, c.m);
    ParsePad(2, c.s);
  }

  /** The prefix reads back as the clock it was written from, whatever
      follows it. */
  lemma ParseClockText(c: Clock, rest: string)
    requires c.m < 60 && c.s < 60
    ensures ParseLeadingClock(ClockText(c) + rest) == Some(ClockRead(c, rest))
  {
    var body := UnsignedClockText(c) + rest;
    var text := ClockText(c) + rest;
    ParseUnsignedClockText(c, rest);
    if c.neg {
      assert text == "-" + body;
      assert text[1..] == body;
    } else {
      assert text == body;
      assert text[0] == Dec(c.h)[0];
    }
  }

  /** A sign and a tick count read back from formatted text. */
  datatype Reading = Reading(neg: bool, ticks: nat)

  /** The tick count a clock and a fraction stand for. */
  function TicksOf(c: Clock, frac: nat, base: nat): nat
  {
    (c.h * 3600 + c.m * 60 + c.s) * base + frac
  }

  /** Reads text in the form the code writes: the clock, then for a
      positive precision the format-string text and the fraction digits. */
  function ParseAsWritten(text: string, precision: int): Option<Reading>
  {
    match ParseLeadingClock(text)
    case None => None
    case Some(cr) => ReadAsWrittenSuffix(cr, ClampPrecision(precision))
  }

  function ReadAsWrittenSuffix(cr: ClockRead, p: nat): Option<Reading>
  {
    if cr.clock.m >= 60 || cr.clock.s >= 60 then None
    else if p == 0 then
      if cr.rest == [] then Some(Reading(cr.clock.neg, TicksOf(cr.clock, 0, 1))) else None
    else
      var f := FmtText(p);
      if |cr.rest| <= |f| || cr.rest[..|f|] != f || !AllDigits(cr.rest[|f|..]) then None
      else
        var frac := Parse(cr.rest[|f|..]);
        if frac >= Pow10(p) then None
        else Some(Reading(cr.clock.neg, TicksOf(cr.clock, frac, Pow10(p))))
  }

  /** Reads text in the documented form: the clock, then for a positive
      precision a point and exactly `precision` digits. */
  function ParseDocumented(text: string, precision: int): Option<Reading>
  {
    match ParseLeadingClock(text)
    case None => None
    case Some(cr) => ReadDocumentedSuffix(cr, ClampPrecision(precision))
  }

  function ReadDocumentedSuffix(cr: ClockRead, p: nat): Option<Reading>
  {
    if cr.clock.m >= 60 || cr.clock.s >= 60 then None
    else if p == 0 then
      if cr.rest == [] then Some(Reading(cr.clock.neg, TicksOf(cr.clock, 0, 1))) else None
    else if |cr.rest| != p + 1 || cr.rest[0] != '.' || !AllDigits(cr.rest[1..]) then None
    else Some(Reading(cr.clock.neg, TicksOf(cr.clock, Parse(cr.rest[1..]), Pow10(p))))
  }

  /** The output of the code, as written, starts with the `[-]H:MM:SS`
      clock of the rounded seconds; at precision 0 nothing follows it, and
      otherwise the format-string text and the unpadded fraction follow. */
  lemma FormatTimeAsWritten(neg: bool, ticks: uint64, precision: int)
    ensures var p := ClampPrecision(precision);
      var base := Pow10(p);
      match ParseLeadingClock(FormatTime(neg, ticks, precision))
      case None => false
      case Some(cr) =>
        && cr.clock.neg == neg
        && cr.clock.m < 60 && cr.clock.s < 60
        && cr.clock.h * 3600 + cr.clock.m * 60 + cr.clock.s == ticks / base
        && (p == 0 ==> cr.rest == [])
        && (p > 0 ==> cr.rest == FmtText(p) + Dec(ticks % base))
  {
    var p := ClampPrecision(precision);
    var parts := Split(ticks, Pow10(p));
    var c := Clock(neg, parts.h, parts.m, parts.s);
    if p > 0 {
      assert FormatTime(neg, ticks, precision) == ClockText(c) + (FmtText(p) + Dec(parts.frac));
      ParseClockText(c, FmtText(p) + Dec(parts.frac));
    } else {
      assert FormatTime(neg, ticks, precision) == ClockText(c) + [];
      ParseClockText(c, []);
    }
  }

  /** The clock of the split parts, with the fraction, stands for the
      ticks that were split. */
  lemma TicksOfSplit(neg: bool, ticks: uint64, base: nat)
    requires base > 0
    ensures var parts := Split(ticks, base);
      TicksOf(Clock(neg, parts.h, parts.m, parts.s), parts.frac, base) == ticks
  {
  }

  lemma ReadAsWrittenSuffixOf(c: Clock, frac: nat, p: nat)
    requires c.m < 60 && c.s < 60
    requires 0 < p && frac < Pow10(p)
    ensures ReadAsWrittenSuffix(ClockRead(c, FmtText(p) + Dec(frac)), p)
      == Some(Reading(c.neg, TicksOf(c, frac, Pow10(p))))
  {
    var f := FmtText(p);
    var rest := f + Dec(frac);
    assert rest[..|f|] == f;
    assert rest[|f|..] == Dec(frac);
    ParseDec(frac);
  }

  lemma ReadDocumentedSuffixOf(c: Clock, frac: nat, p: nat)
    requires c.m < 60 && c.s < 60
    requires 0 < p && frac < Pow10(p)
    ensures ReadDocumentedSuffix(ClockRead(c, "." + Pad(p, frac)), p)
      == Some(Reading(c.neg, TicksOf(c, frac, Pow10(p))))
  {
    var rest := "." + Pad(p, frac);
    PadWidth(p, frac);
    assert rest[1..] == Pad(p, frac);
    ParsePad(p, frac);
  }

  /** The text `FormatTime` builds from the split parts. */
  lemma FormatTimeShape(neg: bool, ticks: uint64, precision: int)
    ensures var p := ClampPrecision(precision);
      var parts := Split(ticks, Pow10(p));
      var c := Clock(neg, parts.h, parts.m, parts.s);
      FormatTime(neg, ticks, precision) == ClockText(c) + (if p > 0 then FmtText(p) + Dec(parts.frac) else [])
  {
  }

  /** The text `FormatTimeDocumented` builds from the split parts. */
  lemma FormatTimeDocumentedShape(neg: bool, ticks: uint64, precision: int)
    ensures var p := ClampPrecision(precision);
      var parts := Split(ticks, Pow10(p));
      var c := Clock(neg, parts.h, parts.m, parts.s);
      FormatTimeDocumented(neg, ticks, precision) == ClockText(c) + (if p > 0 then "." + Pad(p, parts.frac) else [])
  {
  }

  lemma ParseAsWrittenOf(c: Clock, frac: nat, precision: int)
    requires c.m < 60 && c.s < 60
    requires frac < Pow10(ClampPrecision(precision))
    requires ClampPrecision(precision) == 0 ==> frac == 0
    ensures var p := ClampPrecision(precision);
      ParseAsWritten(ClockText(c) + (if p > 0 then FmtText(p) + Dec(frac) else []), precision)
        == Some(Reading(c.neg, TicksOf(c, frac, Pow10(p))))
  {
    var p := ClampPrecision(precision);
    var rest := if p > 0 then FmtText(p) + Dec(frac) else [];
    ParseClockText(c, rest);
    if p > 0 {
      ReadAsWrittenSuffixOf(c, frac, p);
    }
  }

  lemma ParseDocumentedOf(c: Clock, frac: nat, precision: int)
    requires c.m < 60 && c.s < 60
    requires frac < Pow10(ClampPrecision(precision))
    requires ClampPrecision(precision) == 0 ==> frac == 0
    ensures var p := ClampPrecision(precision);
      ParseDocumented(ClockText(c) + (if p > 0 then "." + Pad(p, frac) else []), precision)
        == Some(Reading(c.neg, TicksOf(c, frac, Pow10(p))))
  {
    var p := ClampPrecision(precision);
    var rest := if p > 0 then "." + Pad(p, frac) else [];
    ParseClockText(c, rest);
    if p > 0 {
      ReadDocumentedSuffixOf(c, frac, p);
    }
  }

  /** The code's output determines the sign and the tick count. */
  lemma ParseAsWrittenRoundTrip(neg: bool, ticks: uint64, precision: int)
    ensures ParseAsWritten(FormatTime(neg, ticks, precision), precision) == Some(Reading(neg, ticks))
  {
    var p := ClampPrecision(precision);
    var parts := Split(ticks, Pow10(p));
    FormatTimeShape(neg, ticks, precision);
    TicksOfSplit(neg, ticks, Pow10(p));
    ParseAsWrittenOf(Clock(neg, parts.h, parts.m, parts.s), parts.frac, precision);
  }

  /** The documented form determines the sign and the tick count. */
  lemma ParseDocumentedRoundTrip(neg: bool, ticks: uint64, precision: int)
    ensures ParseDocumented(FormatTimeDocumented(neg, ticks, precision), precision) == Some(Reading(neg, ticks))
  {
    var p := ClampPrecision(precision);
    var parts := Split(ticks, Pow10(p));
    FormatTimeDocumentedShape(neg, ticks, precision);
    TicksOfSplit(neg, ticks, Pow10(p));
    ParseDocumentedOf(Clock(neg, parts.h, parts.m, parts.s), parts.frac, precision);
  }

  /** In the documented form the fraction takes exactly `precision`
      characters after the point. */
  lemma DocumentedFractionWidth(neg: bool, ticks: uint64, precision: int)
    requires ClampPrecision(precision) > 0
    ensures var p := ClampPrecision(precision);
      var parts := Split(ticks, Pow10(p));
      FormatTimeDocumented(neg, ticks, precision)
        == ClockText(Clock(neg, parts.h, parts.m, parts.s)) + "." + Pad(p, parts.frac)
      && |Pad(p, parts.frac)| == p
  {
    var p := ClampPrecision(precision);
    PadWidth(p, Split(ticks, Pow10(p)).frac);
  }

  /** At precision 0 both forms are the bare clock. For a positive
      precision they share the clock and the point, and then differ: the
      code writes the `%` of its format string where the documented form
      has the first fraction digit. */
  lemma AsWrittenVersusDocumented(neg: bool, ticks: uint64, precision: int)
    ensures ClampPrecision(precision) == 0 ==>
      FormatTime(neg, ticks, precision) == FormatTimeDocumented(neg, ticks, precision)
    ensures ClampPrecision(precision) > 0 ==>
      var p := ClampPrecision(precision);
      var parts := Split(ticks, Pow10(p));
      var k := |ClockText(Clock(neg, parts.h, parts.m, parts.s))|;
      var written := FormatTime(neg, ticks, precision);
      var documented := FormatTimeDocumented(neg, ticks, precision);
      && |written| > k + 1 && |documented| > k + 1
      && written[..k + 1] == documented[..k + 1]
      && written[k + 1] == '%' && IsDigit(documented[k + 1])
      && written != documented
  {
    FormatTimeShape(neg, ticks, precision);
    FormatTimeDocumentedShape(neg, ticks, precision);
    var p := ClampPrecision(precision);
    if p > 0 {
      var parts := Split(ticks, Pow10(p));
      var prefix := ClockText(Clock(neg, parts.h, parts.m, parts.s));
      var k := |prefix|;
      var written := prefix + (FmtText(p) + Dec(parts.frac));
      var documented := prefix + ("." + Pad(p, parts.frac));
      PadWidth(p, parts.frac);
      assert written[k + 1] == '%';
      assert documented[k + 1] == Pad(p, parts.frac)[0];
      assert written[..k + 1] == prefix + "." == documented[..k + 1];
    }
  }

  /** Zero seconds at precision 2: the documented `0:00:00.00`, and what
      the code writes instead. */
  lemma ExampleZero()
    ensures FormatTimeDocumented(false, 0, 2) == "0:00:00.00"
    ensures FormatTime(false, 0, 2) == "0:00:00.%02lld0"
  {
    assert Pow10(2) == 100;
    assert Split(0, 100) == Parts(0, 0, 0, 0, 0);
    assert Dec(0) == "0" && Dec(2) == "2";
    assert Pad(2, 0) == "00";
    assert ClockText(Clock(false, 0, 0, 0)) == "0:00:00";
    assert FmtText(2) == ".%02lld";
    FormatTimeShape(false, 0, 2);
    FormatTimeDocumentedShape(false, 0, 2);
  }

  /** 3661.5 s at precision 0 rounds to 3662 ticks before the split, so the
      text is `1:01:02`. */
  lemma ExampleRoundedWholeSeconds()
    ensures FormatTime(false, 3662, 0) == "1:01:02"
  {
    assert Pow10(0) == 1;
    assert Split(3662, 1) == Parts(3662, 0, 1, 1, 2);
    assert Dec(1) == "1" && Dec(2) == "2";
    assert Pad(2, 1) == "01" && Pad(2, 2) == "02";
  }

  /** -5 s at precision 2 is 500 ticks with the sign. */
  lemma ExampleNegative()
    ensures FormatTimeDocumented(true, 500, 2) == "-0:00:05.00"
    ensures FormatTime(true, 500, 2) == "-0:00:05.%02lld0"
  {
    assert Pow10(2) == 100;
    assert Split(500, 100) == Parts(5, 0, 0, 0, 5);
    assert Dec(0) == "0" && Dec(5) == "5" && Dec(2) == "2";
    assert Pad(2, 0) == "00" && Pad(2, 5) == "05";
    assert ClockText(Clock(true, 0, 0, 5)) == "-0:00:05";
    assert FmtText(2) == ".%02lld";
    FormatTimeShape(true, 500, 2);
    FormatTimeDocumentedShape(true, 500, 2);
  }

  /** 59.999 s at precision 2 rounds to 6000 ticks, which the split carries
      into the minutes: the documented `0:01:00.00`, and what the code
      writes instead. */
  lemma ExampleCarryIntoMinutes()
    ensures FormatTimeDocumented(false, 6000, 2) == "0:01:00.00"
    ensures FormatTime(false, 6000, 2) == "0:01:00.%02lld0"
  {
    assert Pow10(2) == 100;
    assert Split(6000, 100) == Parts(60, 0, 0, 1, 0);
    assert Dec(0) == "0" && Dec(1) == "1";
    assert Pad(2, 0) == "00" && Pad(2, 1) == "01";
    assert ClockText(Clock(false, 0, 1, 0)) == "0:01:00";
    assert Dec(2) == "2";
    assert FmtText(2) == ".%02lld";
    FormatTimeShape(false, 6000, 2);
    FormatTimeDocumentedShape(false, 6000, 2);
  }

  /** Precisions outside 0..9 behave as the nearest end of the range. */
  lemma PrecisionClamped(neg: bool, ticks: uint64, precision: int)
    ensures precision > 9 ==> FormatTime(neg, ticks, precision) == FormatTime(neg, ticks, 9)
    ensures precision < 0 ==> FormatTime(neg, ticks, precision) == FormatTime(neg, ticks, 0)
  {
  }

  /** The text always fits the 128-character static buffer, and the
      format string always fits its 10-character buffer. */
  lemma FitsStaticBuffers(neg: bool, ticks: uint64, precision: int)
    ensures |FormatTime(neg, ticks, precision)| < 128
    ensures |FormatTimeDocumented(neg, ticks, precision)| < 128
    ensures |FmtText(ClampPrecision(precision))| < 10
  {
    var p := ClampPrecision(precision);
    var parts := Split(ticks, Pow10(p));
    FormatTimeShape(neg, ticks, precision);
    FormatTimeDocumentedShape(neg, ticks, precision);
    assert parts.h < Pow10(16) by {
      assert Pow10(16) == 10000000000000000;
      assert parts.h * 3600 <= ticks;
    }
    DecLength(parts.h, 16);
    PadWidth(2, parts.m);
    PadWidth(2, parts.s);
    DecLength(p, 1);
    Pow10Monotone(p, 9);
    assert Pow10(9) == 1000000000;
    DecLength(parts.frac, 9);
    if p > 0 {
      PadWidth(p, parts.frac);
    }
  }
}
