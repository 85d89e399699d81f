/**
  Clock arithmetic on `"HH:MM"` strings (src/utils/timeHelpers.js).

  Every time the back-office stores is a string, and every comparison the
  scheduling engine makes between two times is a comparison of strings. This
  module models the helpers exactly as written, including `addMinutes`'s use of
  JavaScript's truncating `%`, which leaves negative fields in its output when
  the total is negative (`"00:10"` minus 20 minutes gives `"-1:-10"`). Because
  such outputs are fed back into `timeRangesOverlap` by the recommender,
  parsing is modelled on the wider `IsTimeText` shape (a numeral, `:`, a
  numeral), a subset of what `split(':').map(Number)` reads as two numbers,
  and `IsClock` names the strict zero-padded `"HH:MM"` form with `HH < 24`
  and `MM < 60`.
*/
module TimeHelpers {
  import opened Text

  const MinutesPerDay: int := 24 * 60

  /** JavaScript's `%` operator: the remainder takes the sign of the dividend. */
  function JsRem(a: int, b: int): (r: int)
    requires b > 0
    ensures a >= 0 ==> 0 <= r < b && r == a % b
    ensures a < 0 ==> -b < r <= 0
  {
    if a >= 0 then a % b else -((-a) % b)
  }

  // ---------------------------------------------------------------------------
  // Shapes of time strings

  /**
    Text that `t.split(':').map(Number)` reads as two integers: a numeral,
    `:`, a numeral. The source also reads other text as two numbers (`"10:"`
    as 10 and 0, `"9:30:00"` as 9 and 30, `" 9:30"`); the model takes such
    text not to parse.
  */
  predicate IsTimeText(t: string)
  {
    var i := IndexOf(t, ':');
    i < |t| && IsNumeral(t[..i]) && IsNumeral(t[i + 1..])
  }

  /** A well-formed 24-hour clock time: five characters, `"HH:MM"`, zero-padded. */
  predicate IsClock(t: string)
  {
    && |t| == 5
    && IsDigit(t[0]) && IsDigit(t[1]) && t[2] == ':' && IsDigit(t[3]) && IsDigit(t[4])
    && 10 * DigitValue(t[0]) + DigitValue(t[1]) < 24
    && 10 * DigitValue(t[3]) + DigitValue(t[4]) < 60
  }

  datatype TimeParts = TimeParts(hours: int, minutes: int)

  /** `parseTime`: the two numbers on either side of the colon. */
  function ParseTime(t: string): TimeParts
    requires IsTimeText(t)
  {
    var i := IndexOf(t, ':');
    TimeParts(NumeralValue(t[..i]), NumeralValue(t[i + 1..]))
  }

  /** `hours * 60 + mins`, the minute count every helper starts from. */
  function TotalMinutes(t: string): int
    requires IsTimeText(t)
  {
    ParseTime(t).hours * 60 + ParseTime(t).minutes
  }

  /** The template `${String(h).padStart(2, '0')}:${String(m).padStart(2, '0')}`. */
  function Render(h: int, m: int): string
  {
    PadTwo(IntToString(h)) + ":" + PadTwo(IntToString(m))
  }

  /** Every rendered pair of integers parses back to the same pair. */
  lemma RenderParse(h: int, m: int)
    ensures IsTimeText(Render(h, m))
    ensures ParseTime(Render(h, m)) == TimeParts(h, m)
  {
    var a, b := PadTwo(IntToString(h)), PadTwo(IntToString(m));
    PadTwoRoundTrip(h);
    PadTwoRoundTrip(m);
    var t := Render(h, m);
    assert t == a + [':'] + b;
    IndexOfAfter(a, ':', b);
    assert t[..|a|] == a && t[|a| + 1..] == b;
  }

  /** A clock parses to its two-digit hour and minute fields. */
  lemma ClockIsTimeText(t: string)
    requires IsClock(t)
    ensures IsTimeText(t)
    ensures ParseTime(t) == TimeParts(10 * DigitValue(t[0]) + DigitValue(t[1]), 10 * DigitValue(t[3]) + DigitValue(t[4]))
    ensures 0 <= TotalMinutes(t) < MinutesPerDay
  {
    assert t == t[..2] + [':'] + t[3..];
    IndexOfAfter(t[..2], ':', t[3..]);
    DigitsValueTwo(t[..2]);
    DigitsValueTwo(t[3..]);
  }

  /** The clock face showing `n` minutes after midnight. */
  function ClockOf(n: int): (t: string)
    requires 0 <= n < MinutesPerDay
    ensures IsClock(t) && IsTimeText(t) && TotalMinutes(t) == n
  {
    PadTwoSmall(n / 60);
    PadTwoSmall(n % 60);
    var t := Render(n / 60, n % 60);
    ClockIsTimeText(t);
    t
  }

  /** A clock is determined by its minute count: parsing and rendering are inverse on clocks. */
  lemma ClockOfTotalMinutes(t: string)
    requires IsClock(t)
    ensures IsTimeText(t) && TotalMinutes(t) < MinutesPerDay
    ensures ClockOf(TotalMinutes(t)) == t
  {
    hide ClockOf;
    ClockIsTimeText(t);
    var n := TotalMinutes(t);
    var c := ClockOf(n);
    ClockIsTimeText(c);
    DivModOf(n, 60, ParseTime(t).hours, ParseTime(t).minutes);
    DivModOf(n, 60, ParseTime(c).hours, ParseTime(c).minutes);
    assert c[0] == t[0] && c[1] == t[1] && c[3] == t[3] && c[4] == t[4] by {
      TwoDigitsDetermined(c[0], c[1], t[0], t[1]);
      TwoDigitsDetermined(c[3], c[4], t[3], t[4]);
    }
  }

  /** Two clocks showing the same minute count are the same string. */
  lemma ClockDeterminedByMinutes(a: string, b: string)
    requires IsClock(a) && IsClock(b)
    ensures IsTimeText(a) && IsTimeText(b)
    ensures TotalMinutes(a) == TotalMinutes(b) ==> a == b
  {
    ClockOfTotalMinutes(a);
    ClockOfTotalMinutes(b);
  }

  /** `parseTime` and the `"HH:MM"` template are inverse on well-formed clocks. */
  lemma ParseTimeRoundTrip(t: string)
    requires IsClock(t)
    ensures IsTimeText(t)
    ensures Render(ParseTime(t).hours, ParseTime(t).minutes) == t
  {
    ClockOfTotalMinutes(t);
    ClockIsTimeText(t);
    var p := ParseTime(t);
    DivModOf(TotalMinutes(t), 60, p.hours, p.minutes);
  }

  lemma TwoDigitsDetermined(a0: char, a1: char, b0: char, b1: char)
    requires IsDigit(a0) && IsDigit(a1) && IsDigit(b0) && IsDigit(b1)
    requires 10 * DigitValue(a0) + DigitValue(a1) == 10 * DigitValue(b0) + DigitValue(b1)
    ensures a0 == b0 && a1 == b1
  {
  }

  /** Division by the clock's radices is determined by quotient and remainder. */
  lemma DivModOf(a: int, b: int, q: int, r: int)
    requires b == 24 || b == 60 || b == MinutesPerDay
    requires 0 <= r < b && a == b * q + r
    ensures a / b == q && a % b == r
  {
    if b == 24 {
      assert a == 24 * q + r;
    } else if b == 60 {
      assert a == 60 * q + r;
    } else {
      assert a == 1440 * q + r;
    }
  }

  // ---------------------------------------------------------------------------
  // Lexicographic order is numeric order on clocks

  lemma TwoDigitOrder(a: string, b: string)
    requires |a| == 2 && |b| == 2 && AllDigits(a) && AllDigits(b)
    ensures StrLess(a, b) <==> 10 * DigitValue(a[0]) + DigitValue(a[1]) < 10 * DigitValue(b[0]) + DigitValue(b[1])
  {
    assert a[1..][1..] == [] && b[1..][1..] == [];
    StrLessIrreflexive([]);
    if a[0] == b[0] {
      assert StrLess(a, b) == StrLess(a[1..], b[1..]);
    }
  }

  /** On well-formed clocks the string order `<` coincides with the order of minute counts. */
  lemma ClockOrder(a: string, b: string)
    requires IsClock(a) && IsClock(b)
    ensures IsTimeText(a) && IsTimeText(b)
    ensures StrLess(a, b) <==> TotalMinutes(a) < TotalMinutes(b)
  {
    hide StrLess, ParseTime;
    ClockIsTimeText(a);
    ClockIsTimeText(b);
    var ah, am, bh, bm := a[..2], a[3..], b[..2], b[3..];
    assert a == ah + ([':'] + am) && b == bh + ([':'] + bm);
    StrLessSameLengthPrefix(ah, [':'] + am, bh, [':'] + bm);
    StrLessSameLengthPrefix([':'], am, [':'], bm);
    assert ah[0] == a[0] && ah[1] == a[1] && bh[0] == b[0] && bh[1] == b[1];
    assert am[0] == a[3] && am[1] == a[4] && bm[0] == b[3] && bm[1] == b[4];
    TwoDigitOrder(ah, bh);
    TwoDigitOrder(am, bm);
    TwoDigitSame(ah, bh);
    LexicographicMinutes(10 * DigitValue(a[0]) + DigitValue(a[1]), 10 * DigitValue(a[3]) + DigitValue(a[4]),
                         10 * DigitValue(b[0]) + DigitValue(b[1]), 10 * DigitValue(b[3]) + DigitValue(b[4]));
  }

  /** Two-digit numerals are equal exactly when their values are. */
  lemma TwoDigitSame(a: string, b: string)
    requires |a| == 2 && |b| == 2 && AllDigits(a) && AllDigits(b)
    ensures a == b <==> 10 * DigitValue(a[0]) + DigitValue(a[1]) == 10 * DigitValue(b[0]) + DigitValue(b[1])
  {
    if a[0] == b[0] && a[1] == b[1] {
      assert a == b;
    }
  }

  /** Comparing hours first and minutes second is comparing minute counts. */
  lemma LexicographicMinutes(h1: int, m1: int, h2: int, m2: int)
    requires 0 <= m1 < 60 && 0 <= m2 < 60
    ensures (h1 < h2 || (h1 == h2 && m1 < m2)) <==> h1 * 60 + m1 < h2 * 60 + m2
  {
  }

  // ---------------------------------------------------------------------------
  // addMinutes

  /**
    `addMinutes(t, m)`: `Math.floor(total / 60) % 24` hours and `total % 60`
    minutes, with JavaScript's truncating `%` (Dafny's `/` by a positive divisor
    is already `Math.floor`).
  */
  function AddMinutes(t: string, m: int): (r: string)
    requires IsTimeText(t)
    ensures IsTimeText(r)
  {
    var total := TotalMinutes(t) + m;
    RenderParse(JsRem(total / 60, 24), JsRem(total, 60));
    Render(JsRem(total / 60, 24), JsRem(total, 60))
  }

  /** The fields `addMinutes` prints, by definition. */
  lemma AddMinutesFields(t: string, m: int)
    requires IsTimeText(t)
    ensures AddMinutes(t, m) == Render(JsRem((TotalMinutes(t) + m) / 60, 24), JsRem(TotalMinutes(t) + m, 60))
  {
  }

  /** For a non-negative total, hours `floor(total / 60) % 24` and minutes `total % 60` read the day's clock face. */
  lemma WrapArithmetic(total: int)
    requires total >= 0
    ensures JsRem(total / 60, 24) == (total % MinutesPerDay) / 60
    ensures JsRem(total, 60) == (total % MinutesPerDay) % 60
  {
    var q, r := total / MinutesPerDay, total % MinutesPerDay;
    var r1, r0 := r / 60, r % 60;
    assert total == 60 * (24 * q + r1) + r0;
    DivModOf(total, 60, 24 * q + r1, r0);
    DivModOf(total / 60, 24, q, r1);
  }

  /** For a non-negative total, `addMinutes` lands on the clock face `(t + m) mod 1440`. */
  lemma AddMinutesWraps(t: string, m: int)
    requires IsTimeText(t) && TotalMinutes(t) + m >= 0
    ensures IsClock(AddMinutes(t, m))
    ensures AddMinutes(t, m) == ClockOf((TotalMinutes(t) + m) % MinutesPerDay)
    ensures TotalMinutes(AddMinutes(t, m)) == (TotalMinutes(t) + m) % MinutesPerDay
  {
    var total := TotalMinutes(t) + m;
    AddMinutesFields(t, m);
    WrapArithmetic(total);
    var c := ClockOf(total % MinutesPerDay);
    assert AddMinutes(t, m) == c;
    assert IsClock(c);
  }

  /** Within the day, `addMinutes` is plain addition on minute counts. */
  lemma AddMinutesWithinDay(t: string, m: int)
    requires IsTimeText(t) && 0 <= TotalMinutes(t) + m < MinutesPerDay
    ensures IsClock(AddMinutes(t, m))
    ensures TotalMinutes(AddMinutes(t, m)) == TotalMinutes(t) + m
  {
    hide AddMinutes, ClockOf;
    AddMinutesWraps(t, m);
    DivModOf(TotalMinutes(t) + m, MinutesPerDay, 0, TotalMinutes(t) + m);
  }

  /** Adding zero minutes to a well-formed clock gives it back unchanged. */
  lemma AddMinutesZero(t: string)
    requires IsClock(t)
    ensures IsTimeText(t) && AddMinutes(t, 0) == t
  {
    ClockOfTotalMinutes(t);
    AddMinutesWraps(t, 0);
    var n := TotalMinutes(t);
    DivModOf(n + 0, MinutesPerDay, 0, n);
  }

  /** The fields `addMinutes` prints for a negative total: neither is positive, and both are zero exactly on whole days. */
  lemma NegativeFields(total: int)
    requires total < 0
    ensures -24 < JsRem(total / 60, 24) <= 0 && -60 < JsRem(total, 60) <= 0
    ensures JsRem(total / 60, 24) == 0 && JsRem(total, 60) == 0 <==> total % MinutesPerDay == 0
  {
    var h, mm := JsRem(total / 60, 24), JsRem(total, 60);
    assert total / 60 < 0;
    if total % MinutesPerDay == 0 {
      var k := total / MinutesPerDay;
      DivModOf(total, MinutesPerDay, k, 0);
      DivModOf(total, 60, 24 * k, 0);
      DivModOf(-total, 60, -24 * k, 0);
      DivModOf(-24 * k, 24, -k, 0);
    }
    if h == 0 && mm == 0 {
      var a := (-total) / 60;
      DivModOf(-total, 60, a, 0);
      DivModOf(total, 60, -a, 0);
      var b := a / 24;
      DivModOf(a, 24, b, 0);
      DivModOf(total, MinutesPerDay, -b, 0);
    }
  }

  /**
    For a negative total the truncating `%` leaves negative fields, so the result
    is not a clock (unless the total is a whole number of days, which prints as
    `"00:00"`); either way it sorts before `"08:00"`.
  */
  lemma AddMinutesBelowMidnight(t: string, m: int)
    requires IsTimeText(t) && TotalMinutes(t) + m < 0
    ensures StrLess(AddMinutes(t, m), "08:00")
    ensures IsClock(AddMinutes(t, m)) <==> (TotalMinutes(t) + m) % MinutesPerDay == 0
  {
    var total := TotalMinutes(t) + m;
    var h, mm := JsRem(total / 60, 24), JsRem(total, 60);
    NegativeFields(total);
    AddMinutesFields(t, m);
    var r := AddMinutes(t, m);
    var hs, ms := PadTwo(IntToString(h)), PadTwo(IntToString(mm));
    assert r == hs + ":" + ms;
    assert r[0] == hs[0] && r[1] == hs[1];
    if h < 0 {
      assert hs[0] == '-';
      assert !IsClock(r);
    } else {
      assert hs == "00";
      assert r[3] == ms[0];
      assert r[1..][0] == '0';
      assert StrLess(r[1..], ":00"[..0] + "8:00");
      if mm < 0 {
        assert ms[0] == '-';
        assert !IsClock(r);
      } else {
        assert ms == "00";
        assert r == "00:00";
      }
    }
  }

  /** The example of the truncating `%`: ten past midnight minus twenty minutes. */
  lemma AddMinutesNegativeExample()
    ensures IsTimeText("00:10")
    ensures AddMinutes("00:10", -20) == "-1:-10"
  {
    var t := "00:10";
    ClockIsTimeText(t);
    assert TotalMinutes(t) == 10;
    AddMinutesFields(t, -20);
    NegativeExampleFields();
    NegativeExampleText();
  }

  lemma NegativeExampleFields()
    ensures JsRem(-10 / 60, 24) == -1 && JsRem(-10, 60) == -10
  {
    DivModOf(-10, 60, -1, 50);
    DivModOf(1, 24, 0, 1);
    DivModOf(10, 60, 0, 10);
  }

  lemma NegativeExampleText()
    ensures Render(-1, -10) == "-1:-10"
  {
    assert PadTwo(IntToString(-1)) == "-1";
    assert PadTwo(IntToString(-10)) == "-10" by {
      assert NatToString(10) == NatToString(1) + [DigitChar(0)];
    }
  }

  /** Half an hour before midnight plus 45 minutes wraps to a quarter past midnight. */
  lemma AddMinutesWrapExample()
    ensures IsTimeText("23:30")
    ensures AddMinutes("23:30", 45) == "00:15"
  {
    hide AddMinutes, ClockOf;
    var t, u := "23:30", "00:15";
    ClockIsTimeText(t);
    assert TotalMinutes(t) == 1410;
    ClockOfTotalMinutes(u);
    ClockIsTimeText(u);
    assert TotalMinutes(u) == 15;
    AddMinutesWraps(t, 45);
    DivModOf(1455, MinutesPerDay, 1, 15);
  }

  // ---------------------------------------------------------------------------
  // minutesBetween

  /** `minutesBetween(start, end)`: not normalised, so it may be negative. */
  function MinutesBetween(start: string, end: string): int
    requires IsTimeText(start) && IsTimeText(end)
  {
    TotalMinutes(end) - TotalMinutes(start)
  }

  /** `minutesBetween` measures what `addMinutes` added, as long as the sum stays within the day. */
  lemma MinutesBetweenAddMinutes(t: string, m: int)
    requires IsTimeText(t) && 0 <= TotalMinutes(t) + m < MinutesPerDay
    ensures MinutesBetween(t, AddMinutes(t, m)) == m
  {
    AddMinutesWithinDay(t, m);
  }

  lemma MinutesBetweenAntisymmetric(a: string, b: string)
    requires IsTimeText(a) && IsTimeText(b)
    ensures MinutesBetween(a, b) == -MinutesBetween(b, a)
    ensures MinutesBetween(a, a) == 0
  {
  }

  // ---------------------------------------------------------------------------
  // timeRangesOverlap

  /** `timeRangesOverlap`: `start1 < end2 && end1 > start2`, compared as strings. */
  predicate TimeRangesOverlap(start1: string, duration1: int, start2: string, duration2: int)
    requires IsTimeText(start1) && IsTimeText(start2)
  {
    StrLess(start1, AddMinutes(start2, duration2)) && StrLess(start2, AddMinutes(start1, duration1))
  }

  lemma TimeRangesOverlapSymmetric(s1: string, d1: int, s2: string, d2: int)
    requires IsTimeText(s1) && IsTimeText(s2)
    ensures TimeRangesOverlap(s1, d1, s2, d2) == TimeRangesOverlap(s2, d2, s1, d1)
  {
  }

  /**
    For clocks whose intervals stay inside the day, the string test is the
    half-open interval test on minute counts: touching intervals do not overlap.
  */
  lemma OverlapIsHalfOpen(s1: string, d1: int, s2: string, d2: int)
    requires IsClock(s1) && IsClock(s2)
    requires IsTimeText(s1) && IsTimeText(s2)
    requires 0 <= TotalMinutes(s1) + d1 < MinutesPerDay
    requires 0 <= TotalMinutes(s2) + d2 < MinutesPerDay
    ensures TimeRangesOverlap(s1, d1, s2, d2) <==>
              TotalMinutes(s1) < TotalMinutes(s2) + d2 && TotalMinutes(s2) < TotalMinutes(s1) + d1
  {
    var e1, e2 := AddMinutes(s1, d1), AddMinutes(s2, d2);
    AddMinutesWithinDay(s1, d1);
    AddMinutesWithinDay(s2, d2);
    ClockOrder(s1, e2);
    ClockOrder(s2, e1);
  }

  /** A non-empty interval that does not cross midnight overlaps itself. */
  lemma OverlapSelf(s: string, d: int)
    requires IsClock(s) && IsTimeText(s)
    requires 0 < d && TotalMinutes(s) + d < MinutesPerDay
    ensures TimeRangesOverlap(s, d, s, d)
  {
    OverlapIsHalfOpen(s, d, s, d);
  }

  /** One lesson ending at 10:00 and the next starting then only touch. */
  lemma AdjacentRangesDoNotOverlap()
    ensures IsTimeText("09:00") && IsTimeText("10:00")
    ensures !TimeRangesOverlap("09:00", 60, "10:00", 60)
  {
    ClockIsTimeText("09:00");
    ClockIsTimeText("10:00");
    OverlapIsHalfOpen("09:00", 60, "10:00", 60);
  }

  /** An interval that wraps past midnight ends "before" it starts, so it does not even overlap itself. */
  lemma WrappingRangeMissesItself()
    ensures IsTimeText("23:00")
    ensures !TimeRangesOverlap("23:00", 120, "23:00", 120)
  {
    var t := "23:00";
    ClockIsTimeText(t);
    assert TotalMinutes(t) == 1380;
    var e := AddMinutes(t, 120);
    AddMinutesWraps(t, 120);
    DivModOf(1500, MinutesPerDay, 1, 60);
    assert TotalMinutes(e) == 60;
    ClockOrder(t, e);
  }

  // ---------------------------------------------------------------------------
  // formatDuration

  /** `formatDuration(minutes)`: `"Hh Mm"`, leaving out a zero hour part or a zero minute part. */
  function FormatDuration(minutes: int): string
  {
    var hours := minutes / 60;
    var mins := JsRem(minutes, 60);
    if hours == 0 then IntToString(mins) + "m"
    else if mins == 0 then IntToString(hours) + "h"
    else IntToString(hours) + "h " + IntToString(mins) + "m"
  }

  /** Reads a duration label back into minutes: the inverse the display is meant to have. */
  function DurationLabelMinutes(s: string): (r: int)
    requires IsDurationLabel(s)
  {
    var i := IndexOf(s, 'h');
    if i == |s| then NumeralValue(s[..|s| - 1])
    else if i + 1 == |s| then 60 * NumeralValue(s[..i])
    else 60 * NumeralValue(s[..i]) + NumeralValue(s[i + 2..|s| - 1])
  }

  /** The three shapes a duration label can take: `"Mm"`, `"Hh"` and `"Hh Mm"`. */
  predicate IsDurationLabel(s: string)
  {
    var i := IndexOf(s, 'h');
    if i == |s| then |s| >= 2 && s[|s| - 1] == 'm' && IsNumeral(s[..|s| - 1])
    else if i + 1 == |s| then IsNumeral(s[..i])
    else i + 3 < |s| && s[i + 1] == ' ' && s[|s| - 1] == 'm' && IsNumeral(s[..i]) && IsNumeral(s[i + 2..|s| - 1])
  }

  /** For a non-negative number of minutes, the label shows exactly that many minutes. */
  lemma FormatDurationRoundTrip(minutes: int)
    requires minutes >= 0
    ensures IsDurationLabel(FormatDuration(minutes))
    ensures DurationLabelMinutes(FormatDuration(minutes)) == minutes
  {
    var hours, mins := minutes / 60, minutes % 60;
    assert JsRem(minutes, 60) == mins;
    IntToStringRoundTrip(hours);
    IntToStringRoundTrip(mins);
    if hours == 0 {
      MinutesLabel(IntToString(mins));
    } else if mins == 0 {
      HoursLabel(IntToString(hours));
    } else {
      HoursMinutesLabel(IntToString(hours), IntToString(mins));
    }
  }

  lemma MinutesLabel(ms: string)
    requires IsNumeral(ms)
    ensures IsDurationLabel(ms + "m") && DurationLabelMinutes(ms + "m") == NumeralValue(ms)
  {
    NumeralChars(ms);
    var r := ms + "m";
    assert r[..|r| - 1] == ms;
    assert 'h' !in r by {
      forall k | 0 <= k < |r| ensures r[k] != 'h' {
        if k < |ms| { assert r[k] == ms[k]; }
      }
    }
  }

  lemma HoursLabel(hs: string)
    requires IsNumeral(hs)
    ensures IsDurationLabel(hs + "h") && DurationLabelMinutes(hs + "h") == 60 * NumeralValue(hs)
  {
    NumeralChars(hs);
    var r := hs + "h";
    assert r == hs + ['h'] + [];
    IndexOfAfter(hs, 'h', []);
    assert r[..|hs|] == hs;
  }

  lemma HoursMinutesLabel(hs: string, ms: string)
    requires IsNumeral(hs) && IsNumeral(ms)
    ensures IsDurationLabel(hs + "h " + ms + "m")
    ensures DurationLabelMinutes(hs + "h " + ms + "m") == 60 * NumeralValue(hs) + NumeralValue(ms)
  {
    NumeralChars(hs);
    var r := hs + "h " + ms + "m";
    assert r == hs + ['h'] + (" " + ms + "m");
    IndexOfAfter(hs, 'h', " " + ms + "m");
    assert r[..|hs|] == hs;
    assert r[|hs| + 2..|r| - 1] == ms;
  }

  lemma FormatDurationExamples()
    ensures FormatDuration(0) == "0m"
    ensures FormatDuration(45) == "45m"
    ensures FormatDuration(60) == "1h"
    ensures FormatDuration(90) == "1h 30m"
  {
    assert NatToString(45) == NatToString(4) + [DigitChar(5)];
    assert NatToString(30) == NatToString(3) + [DigitChar(0)];
  }
}
