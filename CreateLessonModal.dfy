/**
  The dialog that books a lesson (src/components/admin/LessonPlanner/CreateLessonModal.jsx):
  the clash check against booked driving tests, the two effects that keep the
  recommendation and the conflict results current, and the submit handler.

  The dialog's React state is the fields of `LessonDialog`; each effect and the
  submit handler is a method that updates them. Form fields are strings, `""`
  when empty. What the handlers get from outside is passed in: the calendar
  day `new Date(formData.date)` denotes, the user's answer to
  `window.confirm`, the name `getStudentById` finds (`None` when it finds no
  student) and the result `createLesson` resolves to. As in
  `LessonRecommendations`, a time that does not parse is taken to overlap nothing.
*/
module CreateLessonModal {
  import opened Wrappers
  import opened Lists
  import opened TimeHelpers
  import opened PostcodeHelpers
  import opened Validation
  import opened LessonRecommendations

  // ---------------------------------------------------------------------------
  // Booked driving tests

  /** A driving test as the dialog reads it; `date` is `None` when it is missing. */
  datatype DrivingTest = DrivingTest(id: string, student_name: string, date: Day, time: string, status: string)

  /** A driving test blocks two hours from its start time. */
  const TestMinutes := 120

  /** The callback of `tests.find`: a booked test on the day whose two hours overlap the lesson. */
  predicate ClashesWithTest(day: Day, startTime: string, duration: int, test: DrivingTest)
  {
    if test.status != "booked" || test.date.None? then false
    else if !SameDay(test.date, day) then false
    else IsTimeText(startTime) && IsTimeText(test.time) && TimeRangesOverlap(startTime, duration, test.time, TestMinutes)
  }

  /** `tests.find(...) || null`: the test the lesson would run into, if any. */
  function TestClash(day: Day, startTime: string, duration: int, tests: seq<DrivingTest>): (r: Option<DrivingTest>)
    ensures r.Some? ==>
      r.value in tests && r.value.status == "booked" && SameDay(r.value.date, day) &&
      IsTimeText(startTime) && IsTimeText(r.value.time) &&
      TimeRangesOverlap(startTime, duration, r.value.time, TestMinutes)
    ensures r.None? <==> forall t :: t in tests ==> !ClashesWithTest(day, startTime, duration, t)
  {
    Find(tests, t => ClashesWithTest(day, startTime, duration, t))
  }

  /** The reported test is the first clashing one in list order. */
  lemma TestClashIsFirst(day: Day, startTime: string, duration: int, tests: seq<DrivingTest>) returns (i: nat)
    requires TestClash(day, startTime, duration, tests).Some?
    ensures i < |tests| && tests[i] == TestClash(day, startTime, duration, tests).value
    ensures forall j :: 0 <= j < i ==> !ClashesWithTest(day, startTime, duration, tests[j])
  {
    i := FindFirst(tests, t => ClashesWithTest(day, startTime, duration, t));
  }

  /**
    A test that is not booked (rebooked, completed, failed or cancelled), or is
    on another day, or has no date, can be added to or removed from the list
    without changing the clash.
  */
  lemma OtherTestsIgnored(day: Day, startTime: string, duration: int, a: seq<DrivingTest>, t: DrivingTest, b: seq<DrivingTest>)
    requires t.status != "booked" || !SameDay(t.date, day)
    ensures TestClash(day, startTime, duration, a + [t] + b) == TestClash(day, startTime, duration, a + b)
  {
    FindSkips(a, t, b, u => ClashesWithTest(day, startTime, duration, u));
  }

  /**
    On clock times whose intervals stay inside the day, a booked test on the
    day clashes exactly when the half-open intervals [start, start + duration)
    and [test, test + 120) share a minute.
  */
  lemma TestClashWindow(day: Day, startTime: string, duration: int, test: DrivingTest)
    requires test.status == "booked" && SameDay(test.date, day)
    requires IsClock(startTime) && IsTimeText(startTime) && IsClock(test.time) && IsTimeText(test.time)
    requires 0 <= TotalMinutes(startTime) + duration < MinutesPerDay
    requires TotalMinutes(test.time) + TestMinutes < MinutesPerDay
    ensures ClashesWithTest(day, startTime, duration, test) <==>
      TotalMinutes(startTime) < TotalMinutes(test.time) + TestMinutes &&
      TotalMinutes(test.time) < TotalMinutes(startTime) + duration
  {
    OverlapIsHalfOpen(startTime, duration, test.time, TestMinutes);
  }

  // ---------------------------------------------------------------------------
  // The form and the lesson it saves

  /** `formData`; `duration_minutes` is `0` when it is missing. */
  datatype LessonFormData = LessonFormData(
    student_id: string,
    date: string,
    start_time: string,
    duration_minutes: int,
    start_postcode: string,
    end_postcode: string)

  /** The form `resetForm` and the first render set up. */
  function BlankForm(studentId: string, date: string): LessonFormData
  {
    LessonFormData(studentId, date, "09:00", 120, "", "")
  }

  /** The form as `validateLessonForm` reads it: every field is present. */
  function AsLessonForm(f: LessonFormData): LessonForm
  {
    LessonForm(Some(f.student_id), Some(f.date), Some(f.start_time), Some(f.duration_minutes),
               Some(f.start_postcode), Some(f.end_postcode))
  }

  /** The form passes `validateLessonForm`. */
  predicate Passes(f: LessonFormData)
  {
    Filled(Some(f.student_id)) && Filled(Some(f.date)) && Filled(Some(f.start_time)) && f.duration_minutes >= 15 &&
    PostcodeShape(Normalize(f.start_postcode)) &&
    (f.end_postcode == "" || PostcodeShape(Normalize(f.end_postcode)))
  }

  /**
    `errors` after `validateLessonForm` rejected the form: each field carries
    its message exactly when its own check fails.
  */
  predicate ReportsFailures(e: LessonErrors, f: LessonFormData)
  {
    e.student_id == (if Filled(Some(f.student_id)) then None else Some(StudentMessage)) &&
    e.date == (if Filled(Some(f.date)) then None else Some(DateMessage)) &&
    e.start_time == (if Filled(Some(f.start_time)) then None else Some(StartTimeMessage)) &&
    e.duration_minutes == (if f.duration_minutes >= 15 then None else Some(DurationMessage)) &&
    e.start_postcode == (if PostcodeShape(Normalize(f.start_postcode)) then None else Some(PostcodeMessage)) &&
    e.end_postcode == (if f.end_postcode != "" && !PostcodeShape(Normalize(f.end_postcode)) then Some(PostcodeMessage) else None)
  }

  /** A form passes exactly when no field carries a message. */
  lemma ReportsNothingIffPasses(e: LessonErrors, f: LessonFormData)
    requires ReportsFailures(e, f)
    ensures e == NoLessonErrors <==> Passes(f)
  {
  }

  /** `lessonData`: the form with the student's name added. */
  datatype LessonData = LessonData(
    student_id: string,
    date: string,
    start_time: string,
    duration_minutes: int,
    start_postcode: string,
    end_postcode: string,
    student_name: string)

  /** Both postcodes are formatted, and an empty end postcode becomes the start postcode. */
  function Payload(f: LessonFormData, studentName: string): LessonData
  {
    LessonData(f.student_id, f.date, f.start_time, f.duration_minutes,
               FormatPostcode(f.start_postcode),
               FormatPostcode(if f.end_postcode != "" then f.end_postcode else f.start_postcode),
               studentName)
  }

  /**
    The saved postcodes are already in their formatted form, are the same
    postcodes as typed (same letters and digits, so equally valid), and a
    lesson saved without an end postcode ends where it starts.
  */
  lemma PayloadPostcodes(f: LessonFormData, studentName: string)
    ensures var d := Payload(f, studentName);
      FormatPostcode(d.start_postcode) == d.start_postcode &&
      FormatPostcode(d.end_postcode) == d.end_postcode &&
      ValidateUKPostcode(d.start_postcode) == ValidateUKPostcode(f.start_postcode) &&
      (f.end_postcode == "" ==> d.end_postcode == d.start_postcode) &&
      (f.end_postcode != "" ==> ValidateUKPostcode(d.end_postcode) == ValidateUKPostcode(f.end_postcode))
  {
    FormatPostcodeIdempotent(f.start_postcode);
    FormatPostcodeKeepsValidity(f.start_postcode);
    FormatPostcodeIdempotent(f.end_postcode);
    FormatPostcodeKeepsValidity(f.end_postcode);
  }

  /** The form's fields, the other way round: everything but the student's name comes from the form. */
  lemma PayloadKeepsForm(f: LessonFormData, studentName: string)
    ensures var d := Payload(f, studentName);
      d.student_id == f.student_id && d.date == f.date && d.start_time == f.start_time &&
      d.duration_minutes == f.duration_minutes && d.student_name == studentName &&
      Normalize(d.start_postcode) == Normalize(f.start_postcode)
  {
    NormalizeFormatPostcode(f.start_postcode);
  }

  /** `errors`: the field errors of `validateLessonForm`, or `{ general }` after a failed save. */
  datatype DialogErrors = FieldErrors(fields: LessonErrors) | General(message: string)

  /** What `createLesson` resolves to. */
  datatype SaveResult = SaveResult(success: bool, error: string)

  /** The lesson check found a clash. */
  predicate HasConflict(c: Option<ConflictCheck>)
  {
    c.Some? && c.value.hasConflict
  }

  // ---------------------------------------------------------------------------
  // The dialog

  class LessonDialog {
    var formData: LessonFormData
    var errors: DialogErrors
    var recommendation: Option<Recommendation>
    var timeConflict: Option<ConflictCheck>
    var testConflict: Option<DrivingTest>
    var loading: bool
    /** `onClose` has been called. */
    var closed: bool
    /** `initialStudentId || ''` */
    const initialStudentId: string
    /** The `initialDate` prop as a date string, if given. */
    const initialDate: Option<string>

    /** The first render; `today` is the current date as a string. */
    constructor(initialStudentId: string, initialDate: Option<string>, today: string)
      ensures this.initialStudentId == initialStudentId && this.initialDate == initialDate
      ensures formData == BlankForm(initialStudentId, if initialDate.Some? then initialDate.value else today)
      ensures errors == FieldErrors(NoLessonErrors)
      ensures recommendation.None? && timeConflict.None? && testConflict.None?
      ensures !loading && !closed
    {
      this.initialStudentId := initialStudentId;
      this.initialDate := initialDate;
      formData := BlankForm(initialStudentId, if initialDate.Some? then initialDate.value else today);
      errors := FieldErrors(NoLessonErrors);
      recommendation := None;
      timeConflict := None;
      testConflict := None;
      loading := false;
      closed := false;
    }

    /**
      The recommendation effect: with a date, a start postcode and a duration
      it recomputes the recommendation; otherwise it keeps the old one.
    */
    method UpdateRecommendation(day: Day, lessons: seq<Lesson>)
      requires AllWellFormed(lessons)
      modifies this`recommendation
      ensures formData.date != "" && formData.start_postcode != "" && formData.duration_minutes != 0 ==>
        recommendation == Some(ComputeRecommendedSlot(day, formData.start_postcode, formData.duration_minutes, lessons))
      ensures !(formData.date != "" && formData.start_postcode != "" && formData.duration_minutes != 0) ==>
        recommendation == old(recommendation)
    {
      if formData.date != "" && formData.start_postcode != "" && formData.duration_minutes != 0 {
        recommendation := Some(ComputeRecommendedSlot(day, formData.start_postcode, formData.duration_minutes, lessons));
      }
    }

    /**
      The conflict effect: with a date, a start time and a duration it checks
      the lessons and the booked tests; otherwise both results are cleared.
    */
    method UpdateConflicts(day: Day, lessons: seq<Lesson>, tests: seq<DrivingTest>)
      modifies this`timeConflict, this`testConflict
      ensures formData.date != "" && formData.start_time != "" && formData.duration_minutes != 0 ==>
        timeConflict == Some(CheckTimeConflict(day, formData.start_time, formData.duration_minutes, lessons, None)) &&
        testConflict == TestClash(day, formData.start_time, formData.duration_minutes, tests)
      ensures !(formData.date != "" && formData.start_time != "" && formData.duration_minutes != 0) ==>
        timeConflict.None? && testConflict.None?
    {
      if formData.date != "" && formData.start_time != "" && formData.duration_minutes != 0 {
        timeConflict := Some(CheckTimeConflict(day, formData.start_time, formData.duration_minutes, lessons, None));
        testConflict := TestClash(day, formData.start_time, formData.duration_minutes, tests);
      } else {
        timeConflict := None;
        testConflict := None;
      }
    }

    /**
      `handleSubmit`. It returns the lesson handed to `createLesson`, if any.
      A form that fails validation gets its field errors; a lesson clash the
      user does not confirm stops the save; an unknown student stops it with
      the dialog still loading; a successful save resets the form (but not
      the test clash) and closes the dialog, and a failed one shows the error.
    */
    method Submit(confirmed: bool, studentName: Option<string>, result: SaveResult, today: string)
      returns (saved: Option<LessonData>)
      modifies this
      ensures saved.Some? ==> Passes(old(formData)) && (!HasConflict(old(timeConflict)) || confirmed)
      ensures !Passes(old(formData)) ==>
        errors.FieldErrors? && ReportsFailures(errors.fields, old(formData)) &&
        formData == old(formData) && loading == old(loading) && closed == old(closed)
      ensures Passes(old(formData)) && HasConflict(old(timeConflict)) && !confirmed ==>
        errors == old(errors) && formData == old(formData) && loading == old(loading) && closed == old(closed)
      ensures Passes(old(formData)) && (!HasConflict(old(timeConflict)) || confirmed) ==>
        if studentName.None? then
          saved.None? && loading && errors == old(errors) && formData == old(formData) && closed == old(closed)
        else
          saved == Some(Payload(old(formData), studentName.value)) && !loading &&
          if result.success then
            closed && errors == FieldErrors(NoLessonErrors) &&
            formData == BlankForm(initialStudentId, if initialDate.Some? then initialDate.value else today) &&
            recommendation.None? && timeConflict.None?
          else
            errors == General(result.error) && formData == old(formData) && closed == old(closed)
      ensures testConflict == old(testConflict)
      ensures !(saved.Some? && result.success) ==>
        recommendation == old(recommendation) && timeConflict == old(timeConflict)
    {
      hide Normalize, PostcodeShape, FormatPostcode, Payload, Filled, CheckTimeConflict, ComputeRecommendedSlot;
      var isValid, fieldErrors := ValidateLessonForm(AsLessonForm(formData));
      if !isValid {
        errors := FieldErrors(fieldErrors);
        return None;
      }
      if HasConflict(timeConflict) && !confirmed {
        return None;
      }
      loading := true;
      if studentName.None? {
        return None;
      }
      saved := Some(Payload(formData, studentName.value));
      loading := false;
      if result.success {
        closed := true;
        formData := BlankForm(initialStudentId, if initialDate.Some? then initialDate.value else today);
        errors := FieldErrors(NoLessonErrors);
        recommendation := None;
        timeConflict := None;
      } else {
        errors := General(result.error);
      }
    }
  }
}
