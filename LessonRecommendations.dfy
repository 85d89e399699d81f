/**
  The slot recommender and the conflict detector of the lesson planner
  (src/utils/lessonRecommendations.js).

  A lesson's `date` is an abstract calendar day; `isSameDay` is equality of two
  present days. The lesson store keeps `end_time` equal to
  `addMinutes(start_time, duration_minutes)`, which the recommender takes as a
  precondition (`AllWellFormed`). The overlap test is modelled on times that
  parse; a candidate time that does not parse is taken to overlap nothing.
*/
module LessonRecommendations {
  import opened Text
  import opened Wrappers
  import opened Lists
  import opened TimeHelpers
  import opened PostcodeHelpers

  /** A calendar day; `None` is a missing date. */
  type Day = Option<int>

  /** date-fns `isSameDay`: two dates on the same calendar day; a missing date is on no day. */
  predicate SameDay(a: Day, b: Day)
  {
    a.Some? && b.Some? && a.value == b.value
  }

  /** A stored lesson, with the fields the planner reads; a missing postcode is `""`. */
  datatype Lesson = Lesson(
    id: string,
    date: Day,
    start_time: string,
    duration_minutes: int,
    end_time: string,
    start_postcode: string,
    end_postcode: string,
    status: string)

  /** What the lesson store guarantees: the start time parses and the end time is derived from it. */
  predicate WellFormed(l: Lesson)
  {
    IsTimeText(l.start_time) && l.end_time == AddMinutes(l.start_time, l.duration_minutes)
  }

  predicate AllWellFormed(s: seq<Lesson>)
  {
    forall i :: 0 <= i < |s| ==> WellFormed(s[i])
  }

  lemma WellFormedMembers(s: seq<Lesson>)
    ensures AllWellFormed(s) <==> forall l :: l in s ==> WellFormed(l)
  {
    assert forall i :: 0 <= i < |s| ==> s[i] in s;
  }

  const StartOfDay := "08:00"
  const EndOfDay := "20:00"

  lemma DayBounds()
    ensures IsClock(StartOfDay) && IsTimeText(StartOfDay) && TotalMinutes(StartOfDay) == 480
    ensures IsClock(EndOfDay) && IsTimeText(EndOfDay) && TotalMinutes(EndOfDay) == 1200
  {
    ClockIsTimeText(StartOfDay);
    ClockIsTimeText(EndOfDay);
  }

  /** `timeRangesOverlap(t, duration, lesson.start_time, lesson.duration_minutes)`; false on times that do not parse. */
  predicate Overlaps(t: string, duration: int, l: Lesson)
  {
    IsTimeText(t) && IsTimeText(l.start_time) && TimeRangesOverlap(t, duration, l.start_time, l.duration_minutes)
  }

  // ---------------------------------------------------------------------------
  // computeRecommendedSlot

  /** The lessons the recommender plans around: on the day, with status exactly `'scheduled'`. */
  predicate OnDay(l: Lesson, date: Day)
  {
    SameDay(l.date, date) && l.status == "scheduled"
  }

  function StartKey(l: Lesson): string
  {
    l.start_time
  }

  /** The lessons `dayLessons` keeps, in the order of the stored list. */
  function Scheduled(existing: seq<Lesson>, date: Day): seq<Lesson>
  {
    Filter(existing, l => OnDay(l, date))
  }

  /** `dayLessons`: the day's scheduled lessons, sorted by start time. */
  function DayLessons(existing: seq<Lesson>, date: Day): (day: seq<Lesson>)
    ensures forall l :: l in day <==> l in existing && OnDay(l, date)
    ensures multiset(day) == multiset(Scheduled(existing, date))
    ensures SortedBy(day, StartKey)
  {
    var kept := Scheduled(existing, date);
    var day := SortBy(kept, StartKey);
    assert forall l :: l in day <==> l in multiset(day);
    assert forall l :: l in kept <==> l in multiset(kept);
    day
  }

  /**
    The sort is stable: lessons of the day with the same start time keep the
    order of the stored list, which decides which of them is tried first.
  */
  lemma DayLessonsStable(existing: seq<Lesson>, date: Day, t: string)
    ensures Filter(DayLessons(existing, date), l => StartKey(l) == t) ==
            Filter(Scheduled(existing, date), l => StartKey(l) == t)
  {
    var kept := Scheduled(existing, date);
    assert DayLessons(existing, date) == SortBy(kept, StartKey);
    hide DayLessons, Scheduled, SortBy, Filter;
    SortByStable(kept, StartKey, t, l => StartKey(l) == t);
  }

  /** The day's lessons are well formed when all stored lessons are. */
  lemma DayLessonsWellFormed(existing: seq<Lesson>, date: Day)
    requires AllWellFormed(existing)
    ensures AllWellFormed(DayLessons(existing, date))
  {
    WellFormedMembers(existing);
    WellFormedMembers(DayLessons(existing, date));
  }

  /** A lesson starting or ending in the postcode area. */
  predicate InArea(l: Lesson, area: string)
  {
    GetPostcodeArea(l.start_postcode) == area || GetPostcodeArea(l.end_postcode) == area
  }

  /** `similarPostcodeLessons` */
  function Similar(day: seq<Lesson>, area: string): seq<Lesson>
  {
    Filter(day, (l: Lesson) => InArea(l, area))
  }

  /** `dayLessons.some(lesson => timeRangesOverlap(t, duration, ...))` */
  predicate SomeOverlap(t: string, duration: int, day: seq<Lesson>)
  {
    exists l :: l in day && Overlaps(t, duration, l)
  }

  /** `afterTime`: fifteen minutes after the lesson ends. */
  function AfterTime(l: Lesson): (t: string)
    requires WellFormed(l)
    ensures IsTimeText(t)
  {
    AddMinutes(l.end_time, 15)
  }

  /** `beforeTime`: early enough to finish fifteen minutes before the lesson starts. */
  function BeforeTime(l: Lesson, duration: int): (t: string)
    requires WellFormed(l)
    ensures IsTimeText(t)
  {
    AddMinutes(l.start_time, -(duration + 15))
  }

  predicate AfterFits(l: Lesson, duration: int, day: seq<Lesson>)
    requires WellFormed(l)
  {
    hide AddMinutes, IsTimeText, StrLess, TimeRangesOverlap;
    !SomeOverlap(AfterTime(l), duration, day) && StrLess(AfterTime(l), EndOfDay)
  }

  predicate BeforeFits(l: Lesson, duration: int, day: seq<Lesson>)
    requires WellFormed(l)
  {
    hide AddMinutes, IsTimeText, StrLess, TimeRangesOverlap;
    !SomeOverlap(BeforeTime(l, duration), duration, day) && !StrLess(BeforeTime(l, duration), StartOfDay)
  }

  /** The body of the loop over the similar lessons returns for this lesson. */
  predicate Fits(l: Lesson, duration: int, day: seq<Lesson>)
  {
    hide AddMinutes, IsTimeText, StrLess, TimeRangesOverlap;
    WellFormed(l) && (AfterFits(l, duration, day) || BeforeFits(l, duration, day))
  }

  datatype Recommendation = Recommendation(time: string, reason: string)

  const FirstLessonReason := "First lesson of the day"
  const EarliestReason := "Earliest available time slot"

  function AfterReason(l: Lesson): string
  {
    "Recommended - minimizes travel from " + l.start_time + " lesson in " + GetPostcodeArea(l.start_postcode)
  }

  function BeforeReason(l: Lesson): string
  {
    "Recommended - minimizes travel to " + l.start_time + " lesson in " + GetPostcodeArea(l.start_postcode)
  }

  /** The slot next to a similar lesson: after it if that fits, otherwise before it. */
  function Adjacent(l: Lesson, duration: int, day: seq<Lesson>): (r: Recommendation)
    requires WellFormed(l)
    ensures r.reason == AfterReason(l) || r.reason == BeforeReason(l)
  {
    hide AddMinutes, IsTimeText, StrLess, TimeRangesOverlap;
    if AfterFits(l, duration, day) then Recommendation(AfterTime(l), AfterReason(l))
    else Recommendation(BeforeTime(l, duration), BeforeReason(l))
  }

  /**
    `computeRecommendedSlot(date, startPostcode, duration, existingLessons)`: the
    `for` loop over the similar lessons is `findIndex` of the first one that fits.
  */
  function ComputeRecommendedSlot(date: Day, startPostcode: string, duration: int, existing: seq<Lesson>): (r: Recommendation)
    requires AllWellFormed(existing)
    ensures IsTimeText(r.time)
  {
    hide AddMinutes, IsTimeText, StrLess, TimeRangesOverlap, GetPostcodeArea;
    var day := DayLessons(existing, date);
    DayBounds();
    DayLessonsWellFormed(existing, date);
    if day == [] then Recommendation(StartOfDay, FirstLessonReason)
    else
      var similar := Similar(day, GetPostcodeArea(startPostcode));
      match FindIndex(similar, l => Fits(l, duration, day))
      case Some(i) => Adjacent(similar[i], duration, day)
      case None => Recommendation(EarliestAvailableSlot(day, duration), EarliestReason)
  }

  // ---------------------------------------------------------------------------
  // findEarliestAvailableSlot

  /** `minutesBetween(lessons[i].end_time, lessons[i + 1].start_time)` */
  function Gap(lessons: seq<Lesson>, i: nat): int
    requires AllWellFormed(lessons) && i + 1 < |lessons|
  {
    hide AddMinutes, IsTimeText, MinutesBetween;
    MinutesBetween(lessons[i].end_time, lessons[i + 1].start_time)
  }

  /** The `for` loop over consecutive lessons: the first gap of at least `duration + 30` minutes. */
  function FirstGap(lessons: seq<Lesson>, duration: int, i: nat): (r: Option<nat>)
    requires AllWellFormed(lessons)
    ensures r.Some? ==> i <= r.value && r.value + 1 < |lessons| && Gap(lessons, r.value) >= duration + 30
    ensures r.Some? ==> forall j :: i <= j < r.value ==> Gap(lessons, j) < duration + 30
    ensures r.None? ==> forall j :: i <= j && j + 1 < |lessons| ==> Gap(lessons, j) < duration + 30
    decreases |lessons| - i
  {
    hide AddMinutes, IsTimeText, MinutesBetween, Gap;
    if i + 1 >= |lessons| then None
    else if Gap(lessons, i) >= duration + 30 then Some(i)
    else FirstGap(lessons, duration, i + 1)
  }

  /** `findEarliestAvailableSlot(lessons, duration)` */
  function EarliestAvailableSlot(lessons: seq<Lesson>, duration: int): (t: string)
    requires AllWellFormed(lessons)
    ensures IsTimeText(t)
  {
    hide AddMinutes, IsTimeText, StrLess, MinutesBetween;
    DayBounds();
    if |lessons| == 0 || !StrLess(lessons[0].start_time, AddMinutes(StartOfDay, duration)) then StartOfDay
    else match FirstGap(lessons, duration, 0)
      case Some(i) => AddMinutes(lessons[i].end_time, 15)
      case None =>
        var afterLast := AddMinutes(lessons[|lessons| - 1].end_time, 15);
        if StrLess(afterLast, EndOfDay) then afterLast else StartOfDay
  }

  // ---------------------------------------------------------------------------
  // checkTimeConflict

  /** The lessons that can conflict: on the day, scheduled, and not the one being edited. */
  predicate Blocks(l: Lesson, date: Day, exclude: Option<string>)
  {
    OnDay(l, date) && (exclude.None? || l.id != exclude.value)
  }

  /** `{ hasConflict, conflictingLesson }`; `conflictingLesson` is absent without a conflict. */
  datatype ConflictCheck = ConflictCheck(hasConflict: bool, conflictingLesson: Option<Lesson>)

  /** `checkTimeConflict(date, startTime, duration, existingLessons, excludeLessonId)`; `None` is `null`. */
  function CheckTimeConflict(date: Day, startTime: string, duration: int, existing: seq<Lesson>, exclude: Option<string>): (r: ConflictCheck)
    ensures r.hasConflict <==> r.conflictingLesson.Some?
    ensures r.conflictingLesson.Some? ==>
      r.conflictingLesson.value in existing && Blocks(r.conflictingLesson.value, date, exclude) && Overlaps(startTime, duration, r.conflictingLesson.value)
    ensures !r.hasConflict <==> forall l :: l in existing && Blocks(l, date, exclude) ==> !Overlaps(startTime, duration, l)
  {
    hide AddMinutes, IsTimeText, StrLess, TimeRangesOverlap;
    var day := Filter(existing, l => Blocks(l, date, exclude));
    match Find(day, l => Overlaps(startTime, duration, l))
    case Some(l) => ConflictCheck(true, Some(l))
    case None => ConflictCheck(false, None)
  }

  // ---------------------------------------------------------------------------
  // What the recommender promises

  /** No scheduled lesson of the day overlaps a lesson at `t`. */
  predicate Free(t: string, duration: int, existing: seq<Lesson>, date: Day)
  {
    forall m :: m in existing && OnDay(m, date) ==> !Overlaps(t, duration, m)
  }

  /** The lesson has a free slot inside the working day right after it or right before it. */
  predicate FitsNextTo(l: Lesson, duration: int, existing: seq<Lesson>, date: Day)
  {
    WellFormed(l) &&
    ((Free(AfterTime(l), duration, existing, date) && StrLess(AfterTime(l), EndOfDay)) ||
     (Free(BeforeTime(l, duration), duration, existing, date) && !StrLess(BeforeTime(l, duration), StartOfDay)))
  }

  lemma FreeIsNoOverlap(t: string, duration: int, existing: seq<Lesson>, date: Day)
    ensures !SomeOverlap(t, duration, DayLessons(existing, date)) <==> Free(t, duration, existing, date)
  {
  }

  lemma FitsIsFitsNextTo(l: Lesson, duration: int, existing: seq<Lesson>, date: Day)
    ensures Fits(l, duration, DayLessons(existing, date)) <==> FitsNextTo(l, duration, existing, date)
  {
    if WellFormed(l) {
      FreeIsNoOverlap(AfterTime(l), duration, existing, date);
      FreeIsNoOverlap(BeforeTime(l, duration), duration, existing, date);
    }
  }

  /** The three kinds of reason start with different letters. */
  lemma ReasonHeads(l: Lesson)
    ensures AfterReason(l)[0] == 'R' && BeforeReason(l)[0] == 'R'
    ensures FirstLessonReason[0] == 'F' && EarliestReason[0] == 'E'
  {
  }

  /** The three answers of the recommender, and which lesson the loop stops at. */
  lemma ComputeCases(date: Day, startPostcode: string, duration: int, existing: seq<Lesson>) returns (k: Option<nat>)
    requires AllWellFormed(existing)
    ensures AllWellFormed(DayLessons(existing, date))
    ensures k == FindIndex(Similar(DayLessons(existing, date), GetPostcodeArea(startPostcode)), (x: Lesson) => Fits(x, duration, DayLessons(existing, date)))
    ensures var day := DayLessons(existing, date);
      var r := ComputeRecommendedSlot(date, startPostcode, duration, existing);
      (day == [] ==> r == Recommendation(StartOfDay, FirstLessonReason)) &&
      (day != [] && k.None? ==> r == Recommendation(EarliestAvailableSlot(day, duration), EarliestReason))
    ensures var day := DayLessons(existing, date);
      var similar := Similar(day, GetPostcodeArea(startPostcode));
      day != [] && k.Some? ==> ComputeRecommendedSlot(date, startPostcode, duration, existing) == Adjacent(similar[k.value], duration, day)
  {
    hide AddMinutes, IsTimeText, StrLess, TimeRangesOverlap, GetPostcodeArea, Fits, EarliestAvailableSlot, Adjacent, Similar, DayLessons;
    DayLessonsWellFormed(existing, date);
    var day := DayLessons(existing, date);
    k := FindIndex(Similar(day, GetPostcodeArea(startPostcode)), (x: Lesson) => Fits(x, duration, day));
  }

  /** The first-lesson answer is given exactly when nothing is scheduled that day, and it is 08:00. */
  lemma RecommendEmptyDay(date: Day, startPostcode: string, duration: int, existing: seq<Lesson>)
    requires AllWellFormed(existing)
    ensures var r := ComputeRecommendedSlot(date, startPostcode, duration, existing);
      (r.reason == FirstLessonReason <==> forall l :: l in existing ==> !OnDay(l, date)) &&
      (r.reason == FirstLessonReason ==> r.time == StartOfDay)
  {    hide AddMinutes, IsTimeText, StrLess, TimeRangesOverlap, GetPostcodeArea, Fits, EarliestAvailableSlot, ComputeRecommendedSlot, Adjacent;
    var k := ComputeCases(date, startPostcode, duration, existing);
    var day := DayLessons(existing, date);
    if day != [] {
      assert day[0] in day;
      ReasonHeads(day[0]);
      if k.Some? {
        var l := Similar(day, GetPostcodeArea(startPostcode))[k.value];
        ReasonHeads(l);
      }
    }
  }

  /**
    Otherwise, unless it falls back to the earliest slot, the recommendation sits
    next to a scheduled lesson of the day in the same postcode area: fifteen
    minutes after it when that slot is free and starts before 20:00, else
    fifteen minutes before it, in a free slot starting no earlier than 08:00.
    Every similar lesson starting earlier has no such slot.
  */
  lemma RecommendNextToSimilar(date: Day, startPostcode: string, duration: int, existing: seq<Lesson>) returns (l: Lesson)
    requires AllWellFormed(existing)
    requires ComputeRecommendedSlot(date, startPostcode, duration, existing).reason != FirstLessonReason
    requires ComputeRecommendedSlot(date, startPostcode, duration, existing).reason != EarliestReason
    ensures l in existing && OnDay(l, date) && InArea(l, GetPostcodeArea(startPostcode))
    ensures FitsNextTo(l, duration, existing, date)
    ensures var r := ComputeRecommendedSlot(date, startPostcode, duration, existing);
      if Free(AfterTime(l), duration, existing, date) && StrLess(AfterTime(l), EndOfDay)
      then r == Recommendation(AfterTime(l), AfterReason(l))
      else r == Recommendation(BeforeTime(l, duration), BeforeReason(l))
    ensures forall m :: m in existing && OnDay(m, date) && InArea(m, GetPostcodeArea(startPostcode)) && StrLess(m.start_time, l.start_time) ==>
      !FitsNextTo(m, duration, existing, date)
  {    hide AddMinutes, IsTimeText, StrLess, TimeRangesOverlap, GetPostcodeArea, Fits, FitsNextTo, EarliestAvailableSlot, ComputeRecommendedSlot;
    var k := ComputeCases(date, startPostcode, duration, existing);
    var day := DayLessons(existing, date);
    var area := GetPostcodeArea(startPostcode);
    var similar := Similar(day, area);
    assert day != [] && k.Some?;
    l := similar[k.value];
    assert l in similar;
    FitsIsFitsNextTo(l, duration, existing, date);
    FreeIsNoOverlap(AfterTime(l), duration, existing, date);
    FilterSortedBy(day, (x: Lesson) => InArea(x, area), StartKey);
    forall m | m in existing && OnDay(m, date) && InArea(m, area) && StrLess(m.start_time, l.start_time)
      ensures !FitsNextTo(m, duration, existing, date)
    {
      assert m in similar;
      var j :| 0 <= j < |similar| && similar[j] == m;
      if j == k.value {
        StrLessIrreflexive(l.start_time);
      }
      assert j < k.value;
      FitsIsFitsNextTo(m, duration, existing, date);
    }
  }

  /**
    The earliest-slot answer is given exactly when lessons are scheduled that day
    but no lesson of the day in the same postcode area has a slot next to it.
  */
  lemma RecommendEarliest(date: Day, startPostcode: string, duration: int, existing: seq<Lesson>)
    requires AllWellFormed(existing)
    ensures var r := ComputeRecommendedSlot(date, startPostcode, duration, existing);
      r.reason == EarliestReason <==>
        (exists l :: l in existing && OnDay(l, date)) &&
        forall m :: m in existing && OnDay(m, date) && InArea(m, GetPostcodeArea(startPostcode)) ==> !FitsNextTo(m, duration, existing, date)
  {    hide AddMinutes, IsTimeText, StrLess, TimeRangesOverlap, GetPostcodeArea, Fits, FitsNextTo, EarliestAvailableSlot, ComputeRecommendedSlot, Adjacent;
    var k := ComputeCases(date, startPostcode, duration, existing);
    var day := DayLessons(existing, date);
    var area := GetPostcodeArea(startPostcode);
    var similar := Similar(day, area);
    ReasonHeads(Lesson("", None, "", 0, "", "", "", ""));
    if day != [] {
      assert day[0] in day;
      if k.Some? {
        assert similar[k.value] in similar;
        ReasonHeads(similar[k.value]);
        FitsIsFitsNextTo(similar[k.value], duration, existing, date);
      } else {
        forall m | m in existing && OnDay(m, date) && InArea(m, area)
          ensures !FitsNextTo(m, duration, existing, date)
        {
          assert m in similar;
          var j :| 0 <= j < |similar| && similar[j] == m;
          FitsIsFitsNextTo(m, duration, existing, date);
        }
      }
    }
  }

  /** The earliest-slot answer carries the time `findEarliestAvailableSlot` picks among the day's lessons. */
  lemma RecommendEarliestTime(date: Day, startPostcode: string, duration: int, existing: seq<Lesson>)
    requires AllWellFormed(existing)
    ensures AllWellFormed(DayLessons(existing, date))
    ensures var r := ComputeRecommendedSlot(date, startPostcode, duration, existing);
      r.reason == EarliestReason ==> r.time == EarliestAvailableSlot(DayLessons(existing, date), duration)
  {    hide AddMinutes, IsTimeText, StrLess, TimeRangesOverlap, GetPostcodeArea, Fits, EarliestAvailableSlot, ComputeRecommendedSlot, Adjacent;
    var k := ComputeCases(date, startPostcode, duration, existing);
    var day := DayLessons(existing, date);
    if day != [] && k.Some? {
      ReasonHeads(Similar(day, GetPostcodeArea(startPostcode))[k.value]);
    }
  }

  /** `checkTimeConflict` with no lesson excluded finds nothing exactly on a free slot. */
  lemma NoConflictIsFree(date: Day, t: string, duration: int, existing: seq<Lesson>)
    ensures !CheckTimeConflict(date, t, duration, existing, None).hasConflict <==> Free(t, duration, existing, date)
  {
  }

  /** Every recommendation except the earliest-slot fallback passes the conflict check. */
  lemma RecommendationHasNoConflict(date: Day, startPostcode: string, duration: int, existing: seq<Lesson>)
    requires AllWellFormed(existing)
    requires ComputeRecommendedSlot(date, startPostcode, duration, existing).reason != EarliestReason
    ensures !CheckTimeConflict(date, ComputeRecommendedSlot(date, startPostcode, duration, existing).time, duration, existing, None).hasConflict
  {
    var r := ComputeRecommendedSlot(date, startPostcode, duration, existing);
    NoConflictIsFree(date, r.time, duration, existing);
    RecommendEmptyDay(date, startPostcode, duration, existing);
    if r.reason != FirstLessonReason {
      var l := RecommendNextToSimilar(date, startPostcode, duration, existing);
    }
  }

  /** The recommendation depends on the stored lessons only through the day's lessons. */
  lemma ComputeThroughDay(date: Day, startPostcode: string, duration: int, e1: seq<Lesson>, e2: seq<Lesson>)
    requires AllWellFormed(e1) && AllWellFormed(e2) && DayLessons(e1, date) == DayLessons(e2, date)
    ensures ComputeRecommendedSlot(date, startPostcode, duration, e1) == ComputeRecommendedSlot(date, startPostcode, duration, e2)
  {
    hide AddMinutes, IsTimeText, StrLess, TimeRangesOverlap, GetPostcodeArea, Fits, Adjacent, EarliestAvailableSlot, DayLessons, Similar;
  }

  lemma DayLessonsIgnoresOtherLessons(date: Day, a: seq<Lesson>, l: Lesson, b: seq<Lesson>)
    requires !OnDay(l, date)
    ensures DayLessons(a + [l] + b, date) == DayLessons(a + b, date)
  {
    hide SortBy;
    var onDay := (x: Lesson) => OnDay(x, date);
    FilterAppend(a + [l], b, onDay);
    FilterAppend(a, [l], onDay);
    FilterAppend(a, b, onDay);
    assert Filter([l], onDay) == [];
    assert Filter(a + [l] + b, onDay) == Filter(a + b, onDay) by {
      assert Filter(a, onDay) + [] == Filter(a, onDay);
    }
  }

  /** Lessons on other days, or not scheduled, do not change the recommendation. */
  lemma RecommendIgnoresOtherLessons(date: Day, startPostcode: string, duration: int, a: seq<Lesson>, l: Lesson, b: seq<Lesson>)
    requires AllWellFormed(a + [l] + b) && !OnDay(l, date)
    ensures AllWellFormed(a + b)
    ensures ComputeRecommendedSlot(date, startPostcode, duration, a + [l] + b) == ComputeRecommendedSlot(date, startPostcode, duration, a + b)
  {
    WellFormedMembers(a + [l] + b);
    WellFormedMembers(a + b);
    DayLessonsIgnoresOtherLessons(date, a, l, b);
    ComputeThroughDay(date, startPostcode, duration, a + [l] + b, a + b);
  }

  // ---------------------------------------------------------------------------
  // What the earliest-slot search promises

  /** 08:00 is answered when the day is empty or its first lesson starts late enough to leave room before it. */
  lemma EarliestSlotAtStartOfDay(lessons: seq<Lesson>, duration: int)
    requires AllWellFormed(lessons) && 0 <= duration && 480 + duration < MinutesPerDay
    requires lessons != [] ==> IsClock(lessons[0].start_time)
    ensures lessons == [] || TotalMinutes(lessons[0].start_time) >= 480 + duration ==>
      EarliestAvailableSlot(lessons, duration) == StartOfDay
  {
    hide AddMinutes, IsTimeText, StrLess, MinutesBetween, FirstGap, IsClock, TotalMinutes;
    DayBounds();
    if lessons != [] {
      AddMinutesWithinDay(StartOfDay, duration);
      ClockOrder(lessons[0].start_time, AddMinutes(StartOfDay, duration));
    }
  }

  /** A gap wide enough for the lesson and two buffers leaves room for it fifteen minutes after the first lesson. */
  lemma GapSlot(a: Lesson, b: Lesson, duration: int)
    requires WellFormed(a) && WellFormed(b) && IsClock(a.end_time) && IsClock(b.start_time) && 0 <= duration
    requires MinutesBetween(a.end_time, b.start_time) >= duration + 30
    ensures IsClock(AfterTime(a)) && TotalMinutes(AfterTime(a)) == (TotalMinutes(a.end_time) + 15) % MinutesPerDay
    ensures TotalMinutes(AfterTime(a)) + duration + 15 <= TotalMinutes(b.start_time)
  {
    hide AddMinutes, IsTimeText, IsClock, TotalMinutes;
    ClockIsTimeText(a.end_time);
    ClockIsTimeText(b.start_time);
    AddMinutesWithinDay(a.end_time, 15);
    var x := TotalMinutes(a.end_time) + 15;
    assert 0 <= x < MinutesPerDay;
    assert x % MinutesPerDay == x;
  }

  /** The slot after a lesson that sorts before 20:00 is a clock before 20:00. */
  lemma LastSlot(a: Lesson)
    requires WellFormed(a) && IsClock(a.end_time) && StrLess(AfterTime(a), EndOfDay)
    ensures IsClock(AfterTime(a)) && TotalMinutes(AfterTime(a)) == (TotalMinutes(a.end_time) + 15) % MinutesPerDay
    ensures TotalMinutes(AfterTime(a)) < 1200
  {
    hide AddMinutes, IsTimeText, IsClock, TotalMinutes, StrLess;
    DayBounds();
    ClockIsTimeText(a.end_time);
    AddMinutesWraps(a.end_time, 15);
    ClockOrder(AfterTime(a), EndOfDay);
  }

  /**
    Any other answer starts fifteen minutes after a lesson ends: after the first
    gap wide enough for the new lesson and two fifteen-minute buffers, finishing
    at least fifteen minutes before the next lesson, or else after the last
    lesson, before 20:00.
  */
  lemma EarliestSlotAfterLesson(lessons: seq<Lesson>, duration: int) returns (i: nat)
    requires AllWellFormed(lessons) && 0 <= duration
    requires forall k :: 0 <= k < |lessons| ==> IsClock(lessons[k].start_time) && IsClock(lessons[k].end_time)
    requires EarliestAvailableSlot(lessons, duration) != StartOfDay
    ensures i < |lessons| && EarliestAvailableSlot(lessons, duration) == AfterTime(lessons[i])
    ensures IsClock(AfterTime(lessons[i]))
    ensures TotalMinutes(AfterTime(lessons[i])) == (TotalMinutes(lessons[i].end_time) + 15) % MinutesPerDay
    ensures forall j :: 0 <= j < i ==> Gap(lessons, j) < duration + 30
    ensures i + 1 < |lessons| ==> TotalMinutes(AfterTime(lessons[i])) + duration + 15 <= TotalMinutes(lessons[i + 1].start_time)
    ensures i + 1 == |lessons| ==> TotalMinutes(AfterTime(lessons[i])) < 1200
  {
    hide AddMinutes, IsTimeText, StrLess, IsClock, TotalMinutes, MinutesBetween;
    assert lessons != [];
    match FirstGap(lessons, duration, 0)
    case Some(g) =>
      i := g;
      GapSlot(lessons[g], lessons[g + 1], duration);
    case None =>
      i := |lessons| - 1;
      LastSlot(lessons[i]);
  }

  // ---------------------------------------------------------------------------
  // What the conflict check promises

  /** The reported lesson is the first stored lesson, in the given order, that blocks the slot and overlaps it. */
  lemma ConflictIsFirst(date: Day, startTime: string, duration: int, existing: seq<Lesson>, exclude: Option<string>) returns (i: nat)
    requires CheckTimeConflict(date, startTime, duration, existing, exclude).hasConflict
    ensures i < |existing| && existing[i] == CheckTimeConflict(date, startTime, duration, existing, exclude).conflictingLesson.value
    ensures forall j :: 0 <= j < i ==> !(Blocks(existing[j], date, exclude) && Overlaps(startTime, duration, existing[j]))
  {
    hide Overlaps, Blocks;
    var blocks := (l: Lesson) => Blocks(l, date, exclude);
    var overlaps := (l: Lesson) => Overlaps(startTime, duration, l);
    var both := (l: Lesson) => Blocks(l, date, exclude) && Overlaps(startTime, duration, l);
    FindAfterFilter(existing, blocks, overlaps);
    FindExtensional(existing, x => blocks(x) && overlaps(x), both);
    i := FindFirst(existing, both);
  }
}
