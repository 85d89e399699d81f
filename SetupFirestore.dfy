/**
  The seeding script's own clock helper (scripts/setupFirestore.js), a twin of
  `addMinutes` that normalises the minute count into the day before splitting
  it, so it never prints negative fields.
*/
module SetupFirestore {
  import opened Text
  import opened TimeHelpers

  /** `((total % 1440) + 1440) % 1440` with JavaScript's `%` is the Euclidean remainder. */
  lemma NormalizedIsEuclidean(total: int)
    ensures JsRem(JsRem(total, MinutesPerDay) + MinutesPerDay, MinutesPerDay) == total % MinutesPerDay
  {
    var r := JsRem(total, MinutesPerDay);
    if total >= 0 {
      DivModOf(r + MinutesPerDay, MinutesPerDay, 1, r);
    } else {
      var a := -total;
      var q, s := a / MinutesPerDay, a % MinutesPerDay;
      DivModOf(a, MinutesPerDay, q, s);
      if s == 0 {
        DivModOf(total, MinutesPerDay, -q, 0);
        DivModOf(MinutesPerDay, MinutesPerDay, 1, 0);
      } else {
        DivModOf(total, MinutesPerDay, -q - 1, MinutesPerDay - s);
        DivModOf(MinutesPerDay - s, MinutesPerDay, 0, MinutesPerDay - s);
      }
    }
  }

  /**
    `addMinutesToTimeString(t, m)`: always a clock, showing the Euclidean
    remainder of `t + m` modulo a day, negative totals included.
  */
  function AddMinutesToTimeString(t: string, m: int): (r: string)
    requires IsTimeText(t)
    ensures IsClock(r) && IsTimeText(r)
    ensures TotalMinutes(r) == (TotalMinutes(t) + m) % MinutesPerDay
  {
    var total := TotalMinutes(t) + m;
    var normalized := JsRem(JsRem(total, MinutesPerDay) + MinutesPerDay, MinutesPerDay);
    NormalizedIsEuclidean(total);
    var r := Render(normalized / 60, JsRem(normalized, 60));
    assert r == ClockOf(normalized);
    r
  }

  /** Where `addMinutes` is well behaved (a non-negative total) the two helpers agree. */
  lemma AgreesWithAddMinutes(t: string, m: int)
    requires IsTimeText(t) && TotalMinutes(t) + m >= 0
    ensures AddMinutesToTimeString(t, m) == AddMinutes(t, m)
  {
    var n := (TotalMinutes(t) + m) % MinutesPerDay;
    AddMinutesWraps(t, m);
    ClockOfTotalMinutes(AddMinutesToTimeString(t, m));
  }

  /** Adding `m` minutes and then `-m` minutes returns the original clock. */
  lemma AddThenSubtract(t: string, m: int)
    requires IsClock(t)
    ensures IsTimeText(t)
    ensures AddMinutesToTimeString(AddMinutesToTimeString(t, m), -m) == t
  {
    hide AddMinutesToTimeString;
    ClockIsTimeText(t);
    var u := AddMinutesToTimeString(t, m);
    var w := AddMinutesToTimeString(u, -m);
    UndoShift(TotalMinutes(t), m, -m, TotalMinutes(u), TotalMinutes(w));
    ClockDeterminedByMinutes(w, t);
  }

  /** Shifting a minute count within the day by `m` and back by `-m`, each time modulo a day, gives it back. */
  lemma UndoShift(n: int, m: int, back: int, u: int, w: int)
    requires 0 <= n < MinutesPerDay && back == -m
    requires u == (n + m) % MinutesPerDay && w == (u + back) % MinutesPerDay
    ensures w == n
  {
    var k := (n + m) / MinutesPerDay;
    DivModOf(n + m, MinutesPerDay, k, u);
    DivModOf(u + back, MinutesPerDay, -k, n);
  }

  /** Adding a whole day returns the original clock. */
  lemma AddWholeDay(t: string)
    requires IsClock(t)
    ensures IsTimeText(t)
    ensures AddMinutesToTimeString(t, MinutesPerDay) == t
  {
    ClockIsTimeText(t);
    var n := TotalMinutes(t);
    var w := AddMinutesToTimeString(t, MinutesPerDay);
    DivModOf(n + MinutesPerDay, MinutesPerDay, 1, n);
    ClockDeterminedByMinutes(w, t);
  }

  /** The seeded demo lesson starts at 10:00 and lasts an hour, so it ends at 11:00. */
  lemma SeededLessonEnd()
    ensures IsTimeText("10:00")
    ensures AddMinutesToTimeString("10:00", 60) == "11:00"
  {
    SeededLessonEndMinutes();
    ClockIsTimeText("11:00");
    assert TotalMinutes("11:00") == 660;
    ClockDeterminedByMinutes(AddMinutesToTimeString("10:00", 60), "11:00");
  }

  lemma SeededLessonEndMinutes()
    ensures IsTimeText("10:00")
    ensures TotalMinutes(AddMinutesToTimeString("10:00", 60)) == 660
  {
    ClockIsTimeText("10:00");
    assert TotalMinutes("10:00") == 600;
    DivModOf(660, MinutesPerDay, 0, 660);
  }
}
