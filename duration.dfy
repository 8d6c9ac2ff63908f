/**
 * The `total_time` cell of the export (backup.py:122): the fight length in
 * milliseconds is turned into a `datetime.timedelta`, printed with `str`,
 * and only the text after the last ", " is kept, which drops a
 * "N day(s), " prefix.
 */
module Duration {
  import opened Wrappers
  import opened Text

  const MsPerMinute := 60_000
  const MsPerHour := 3_600_000
  const MsPerDay := 86_400_000
  /** The largest magnitude of `timedelta.days`; beyond it the constructor raises OverflowError. */
  const MaxDays := 999_999_999

  /**
   * The `"%d:%02d:%02d"` clock of `timedelta.__str__` for `rem` milliseconds
   * into a day, followed by `".%06d"` microseconds when those are non-zero.
   */
  function ClockText(rem: nat): string
    requires rem < MsPerDay
  {
    var seconds := rem / 1000;
    var micros := (rem % 1000) * 1000;
    NatToDecimal(seconds / 3600) + ":" + ZeroPad(seconds / 60 % 60, 2) + ":" + ZeroPad(seconds % 60, 2)
      + (if micros != 0 then "." + ZeroPad(micros, 6) else "")
  }

  /** The `"%d day%s, "` prefix `timedelta.__str__` writes for a non-zero day count. */
  function DaysText(days: int): string {
    if days == 0 then "" else IntToDecimal(days) + " day" + (if days == 1 || days == -1 then "" else "s") + ", "
  }

  /**
   * `str(timedelta(milliseconds=ms))`, or None where the constructor raises
   * OverflowError. Python normalises to `days = ms // 86400000` and a
   * remainder in [0, 86400000); Dafny's `/` and `%` agree with Python's for
   * a positive divisor, negative `ms` included.
   */
  function TimedeltaText(ms: int): (r: Option<string>)
    ensures r.Some? <==> InRange(ms)
    ensures 0 <= ms < MsPerDay ==> r == Some(ClockText(ms))
  {
    var days := ms / MsPerDay;
    assert 0 <= ms < MsPerDay ==> days == 0 && DaysText(days) + ClockText(ms % MsPerDay) == ClockText(ms) by {
      if 0 <= ms < MsPerDay {
        DivModUnique(0, MsPerDay, ms);
        assert DaysText(0) == "";
      }
    }
    if days < -MaxDays || days > MaxDays then None
    else Some(DaysText(days) + ClockText(ms % MsPerDay))
  }

  /** `str(timedelta(milliseconds=ms)).split(", ")[-1]`; None is the OverflowError. */
  function TotalTime(ms: int): (r: Option<string>)
    ensures r.None? <==> !InRange(ms)
  {
    match TimedeltaText(ms)
    case None => None
    case Some(text) =>
      var pieces := Split(text, ", ");
      Some(pieces[|pieces| - 1])
  }

  predicate InRange(ms: int) {
    -MaxDays <= ms / MsPerDay <= MaxDays
  }

  /** The fields of an "H:MM:SS[.ffffff]" clock. */
  datatype Clock = Clock(hours: nat, minutes: nat, seconds: nat, micros: nat)

  /** Reads "H:MM:SS" (at least one hour digit, two minute and two second digits). */
  function ParseHms(s: string): Option<Clock> {
    var n := |s|;
    if n >= 7 && s[n - 3] == ':' && s[n - 6] == ':'
       && AllDigits(s[..n - 6]) && AllDigits(s[n - 5..n - 3]) && AllDigits(s[n - 2..])
    then Some(Clock(DigitsValue(s[..n - 6]), DigitsValue(s[n - 5..n - 3]), DigitsValue(s[n - 2..]), 0))
    else None
  }

  /** Reads "H:MM:SS" optionally followed by "." and six microsecond digits. */
  function ParseClock(s: string): Option<Clock> {
    var n := |s|;
    if n >= 7 && s[n - 7] == '.' && AllDigits(s[n - 6..]) then
      match ParseHms(s[..n - 7])
      case None => None
      case Some(c) => Some(c.(micros := DigitsValue(s[n - 6..])))
    else ParseHms(s)
  }

  lemma DigitsFree(s: string, c: char)
    requires AllDigits(s) && !IsDigit(c)
    ensures Free(s, c)
  {
  }

  lemma ZeroPadDigits(n: nat, width: nat)
    ensures AllDigits(ZeroPad(n, width))
  {
    var digits := NatToDecimal(n);
    if |digits| < width {
      var z := Zeros(width - |digits|);
      forall i | 0 <= i < |z + digits| ensures IsDigit((z + digits)[i]) {
        if i >= |z| {
          assert (z + digits)[i] == digits[i - |z|];
        }
      }
    }
  }

  /** The clock text holds no comma, so the ", " split cannot cut into it. */
  lemma ClockTextNoComma(rem: nat)
    requires rem < MsPerDay
    ensures Free(ClockText(rem), ',')
  {
    var seconds := rem / 1000;
    var micros := (rem % 1000) * 1000;
    ZeroPadDigits(seconds / 60 % 60, 2);
    ZeroPadDigits(seconds % 60, 2);
    ZeroPadDigits(micros, 6);
    DigitsFree(NatToDecimal(seconds / 3600), ',');
    DigitsFree(ZeroPad(seconds / 60 % 60, 2), ',');
    DigitsFree(ZeroPad(seconds % 60, 2), ',');
    DigitsFree(ZeroPad(micros, 6), ',');
    var a := NatToDecimal(seconds / 3600) + ":";
    FreeConcat(NatToDecimal(seconds / 3600), ":", ',');
    FreeConcat(a, ZeroPad(seconds / 60 % 60, 2), ',');
    FreeConcat(a + ZeroPad(seconds / 60 % 60, 2), ":", ',');
    var b := a + ZeroPad(seconds / 60 % 60, 2) + ":";
    FreeConcat(b, ZeroPad(seconds % 60, 2), ',');
    var hms := b + ZeroPad(seconds % 60, 2);
    if micros != 0 {
      FreeConcat(".", ZeroPad(micros, 6), ',');
      FreeConcat(hms, "." + ZeroPad(micros, 6), ',');
    } else {
      assert hms + "" == hms;
    }
  }

  lemma DaysTextNoComma(days: int)
    requires days != 0
    ensures DaysText(days) == IntToDecimal(days) + " day" + (if days == 1 || days == -1 then "" else "s") + ", "
    ensures Free(IntToDecimal(days) + " day" + (if days == 1 || days == -1 then "" else "s"), ',')
  {
    var d := IntToDecimal(days);
    if days < 0 {
      DigitsFree(NatToDecimal(-days), ',');
      FreeConcat("-", NatToDecimal(-days), ',');
    } else {
      DigitsFree(NatToDecimal(days), ',');
    }
    FreeConcat(d, " day", ',');
    FreeConcat(d + " day", if days == 1 || days == -1 then "" else "s", ',');
  }

  /**
   * Within timedelta's range, `total_time` is exactly the clock of the
   * remainder `ms mod 86400000`: the days prefix never survives the split.
   */
  lemma TotalTimeIsClock(ms: int)
    requires InRange(ms)
    ensures TotalTime(ms) == Some(ClockText(ms % MsPerDay))
  {
    var days := ms / MsPerDay;
    var c := ClockText(ms % MsPerDay);
    ClockTextNoComma(ms % MsPerDay);
    SplitFree(c, ", ");
    if days != 0 {
      DaysTextNoComma(days);
      var p := IntToDecimal(days) + " day" + (if days == 1 || days == -1 then "" else "s");
      assert DaysText(days) + c == p + ", " + c;
      SplitAfterFree(p, ", ", c);
    } else {
      assert DaysText(days) + c == c;
    }
  }

  /** Adding a whole day does not change `total_time` (while the result stays in range). */
  lemma DaysDropped(ms: int)
    requires InRange(ms) && InRange(ms + MsPerDay)
    ensures TotalTime(ms + MsPerDay) == TotalTime(ms)
  {
    AddMultiple(1, MsPerDay, ms);
    var rem := ms % MsPerDay;
    assert (ms + MsPerDay) % MsPerDay == rem;
    TotalTimeIsClock(ms);
    TotalTimeIsClock(ms + MsPerDay);
  }

  /** Where the fields of an "H:MM:SS" text sit. */
  lemma HmsSlices(h: string, a: string, b: string)
    requires |a| == 2 && |b| == 2
    ensures var s := h + ":" + a + ":" + b;
            && |s| == |h| + 6 && s[|s| - 3] == ':' && s[|s| - 6] == ':'
            && s[..|s| - 6] == h && s[|s| - 5..|s| - 3] == a && s[|s| - 2..] == b
  {
    var s := h + ":" + a + ":" + b;
    var n := |s|;
    assert s[..n - 6] == h by {
      assert forall i :: 0 <= i < |h| ==> s[i] == h[i];
    }
    assert s[n - 5..n - 3] == a by {
      assert s[n - 5] == a[0] && s[n - 4] == a[1];
    }
    assert s[n - 2..] == b by {
      assert s[n - 2] == b[0] && s[n - 1] == b[1];
    }
  }

  lemma ParseHmsParts(h: string, a: string, b: string)
    requires |h| >= 1 && |a| == 2 && |b| == 2 && AllDigits(h) && AllDigits(a) && AllDigits(b)
    ensures ParseHms(h + ":" + a + ":" + b) == Some(Clock(DigitsValue(h), DigitsValue(a), DigitsValue(b), 0))
  {
    HmsSlices(h, a, b);
  }

  lemma ParseClockWithFraction(hms: string, f: string)
    requires |f| == 6 && AllDigits(f) && ParseHms(hms).Some?
    ensures ParseClock(hms + "." + f) == Some(ParseHms(hms).value.(micros := DigitsValue(f)))
  {
    var s := hms + "." + f;
    assert s[|s| - 7] == '.' && s[|s| - 6..] == f && s[..|s| - 7] == hms;
  }

  lemma ParseClockWithoutFraction(h: string, a: string, b: string)
    requires |h| >= 1 && |a| == 2 && |b| == 2 && AllDigits(h)
    ensures ParseClock(h + ":" + a + ":" + b) == ParseHms(h + ":" + a + ":" + b)
  {
    var s := h + ":" + a + ":" + b;
    assert s[|s| - 7] == h[|h| - 1];
  }

  /** Reading the clock text back gives the fields of the remainder it was made from. */
  lemma ClockReadBack(rem: nat)
    requires rem < MsPerDay
    ensures ParseClock(ClockText(rem))
         == Some(Clock(rem / 1000 / 3600, rem / 1000 / 60 % 60, rem / 1000 % 60, (rem % 1000) * 1000))
  {
    var seconds := rem / 1000;
    var micros := (rem % 1000) * 1000;
    var h := NatToDecimal(seconds / 3600);
    var a := ZeroPad(seconds / 60 % 60, 2);
    var b := ZeroPad(seconds % 60, 2);
    DecimalRoundTrip(seconds / 3600);
    ZeroPadFacts(seconds / 60 % 60, 2);
    ZeroPadFacts(seconds % 60, 2);
    ParseHmsParts(h, a, b);
    var hms := h + ":" + a + ":" + b;
    if micros != 0 {
      ZeroPadFacts(micros, 6);
      assert ClockText(rem) == hms + "." + ZeroPad(micros, 6);
      ParseClockWithFraction(hms, ZeroPad(micros, 6));
    } else {
      assert ClockText(rem) == hms;
      ParseClockWithoutFraction(h, a, b);
    }
  }

  /**
   * Reading back `total_time` recovers the hours modulo 24, the minutes, the
   * seconds and the microseconds of `ms`; the hour field is
   * `(ms / 3600000) mod 24` because the day count has been dropped.
   */
  lemma TotalTimeRoundTrip(ms: int)
    requires InRange(ms)
    ensures TotalTime(ms).Some?
    ensures ParseClock(TotalTime(ms).value)
         == Some(Clock((ms / MsPerHour) % 24, (ms / MsPerMinute) % 60, (ms / 1000) % 60, (ms % 1000) * 1000))
  {
    TotalTimeIsClock(ms);
    ClockReadBack(ms % MsPerDay);
    ClockArithmetic(ms);
  }

  lemma MulBounds(k: int, d: int)
    requires d > 0
    ensures k >= 1 ==> k * d >= d
    ensures k <= -1 ==> k * d <= -d
  {
  }

  lemma DivModUnique(q: int, d: int, r: int)
    requires d > 0 && 0 <= r < d
    ensures (q * d + r) / d == q && (q * d + r) % d == r
  {
    var n := q * d + r;
    assert n == (n / d) * d + n % d;
    assert (q - n / d) * d == q * d - (n / d) * d;
    MulBounds(q - n / d, d);
  }

  lemma AddMultiple(k: int, d: int, x: int)
    requires d > 0
    ensures (k * d + x) / d == k + x / d && (k * d + x) % d == x % d
  {
    assert k * d + x == (k + x / d) * d + x % d;
    DivModUnique(k + x / d, d, x % d);
  }

  lemma MulMonotone(m: int, n: int, a: int)
    requires m <= n && a >= 0
    ensures m * a <= n * a
  {
    assert n * a - m * a == (n - m) * a;
  }

  lemma DivDiv(x: nat, a: int, b: int)
    requires a > 0 && b > 0
    ensures x / a / b == x / (a * b)
  {
    var y := x / a;
    var q, m := y / b, y % b;
    assert x == y * a + x % a;
    assert y == q * b + m;
    assert y * a == q * (a * b) + m * a;
    MulMonotone(m, b - 1, a);
    assert (b - 1) * a == a * b - a;
    DivModUnique(q, a * b, m * a + x % a);
  }

  /** The clock fields of the remainder agree with the fields of `ms` itself. */
  lemma {:induction false} ClockArithmetic(ms: int)
    ensures (ms % MsPerDay) / 1000 / 3600 == (ms / MsPerHour) % 24
    ensures (ms % MsPerDay) / 1000 / 60 % 60 == (ms / MsPerMinute) % 60
    ensures (ms % MsPerDay) / 1000 % 60 == (ms / 1000) % 60
    ensures (ms % MsPerDay) % 1000 == ms % 1000
  {
    var q := ms / MsPerDay;
    var rem := ms % MsPerDay;
    assert ms == q * MsPerDay + rem;
    DivDiv(rem, 1000, 3600);
    DivDiv(rem, 1000, 60);
    // hours
    assert ms == (q * 24) * MsPerHour + rem;
    AddMultiple(q * 24, MsPerHour, rem);
    assert rem / MsPerHour < 24 by {
      assert rem / MsPerHour * MsPerHour <= rem;
    }
    AddMultiple(q, 24, rem / MsPerHour);
    DivModUnique(q, 24, rem / MsPerHour);
    // minutes
    assert ms == (q * 1440) * MsPerMinute + rem;
    AddMultiple(q * 1440, MsPerMinute, rem);
    assert q * 1440 + rem / MsPerMinute == (q * 24) * 60 + rem / MsPerMinute;
    AddMultiple(q * 24, 60, rem / MsPerMinute);
    // seconds and milliseconds
    assert ms == (q * 86400) * 1000 + rem;
    AddMultiple(q * 86400, 1000, rem);
    assert q * 86400 + rem / 1000 == (q * 1440) * 60 + rem / 1000;
    AddMultiple(q * 1440, 60, rem / 1000);
  }

  lemma HmsFree(h: string, a: string, b: string, c: char)
    requires AllDigits(h) && AllDigits(a) && AllDigits(b) && !IsDigit(c) && c != ':'
    ensures Free(h + ":" + a + ":" + b, c)
  {
    DigitsFree(h, c);
    DigitsFree(a, c);
    DigitsFree(b, c);
    FreeConcat(h, ":", c);
    FreeConcat(h + ":", a, c);
    FreeConcat(h + ":" + a, ":", c);
    FreeConcat(h + ":" + a + ":", b, c);
  }

  /** A microsecond suffix (the only '.') appears exactly when `ms` is not a whole number of seconds. */
  lemma FractionShownIffPartialSecond(ms: int)
    requires InRange(ms)
    ensures TotalTime(ms).Some?
    ensures !Free(TotalTime(ms).value, '.') <==> ms % 1000 != 0
  {
    TotalTimeIsClock(ms);
    ClockArithmetic(ms);
    var rem := ms % MsPerDay;
    var seconds := rem / 1000;
    var micros := (rem % 1000) * 1000;
    var h := NatToDecimal(seconds / 3600);
    var a := ZeroPad(seconds / 60 % 60, 2);
    var b := ZeroPad(seconds % 60, 2);
    ZeroPadDigits(seconds / 60 % 60, 2);
    ZeroPadDigits(seconds % 60, 2);
    var hms := h + ":" + a + ":" + b;
    if micros != 0 {
      var s := hms + "." + ZeroPad(micros, 6);
      assert ClockText(rem) == s;
      assert s[|hms|] == '.';
    } else {
      assert ClockText(rem) == hms;
      HmsFree(h, a, b, '.');
    }
  }
}
