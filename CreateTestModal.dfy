/**
  The dialog that books a driving test (src/components/admin/Tests/CreateTestModal.jsx):
  the clash check against lessons and the submit handler.

  As in `CreateLessonModal`, the dialog's state is the fields of a class, form
  fields are strings (`""` when empty), and what comes from outside is passed
  in: the calendar day of `new Date(formData.date)`, the student's name found
  by `getStudentById`, the answer to `window.confirm` and what `onCreate`
  resolves to.
*/
module CreateTestModal {
  import opened Wrappers
  import opened Lists
  import opened TimeHelpers
  import opened LessonRecommendations
  import opened CreateLessonModal

  // ---------------------------------------------------------------------------
  // Lessons in the way of a test

  /** The callback of `lessons.find`: a dated lesson, not cancelled, on the day, overlapping the test's two hours. */
  predicate ClashesWithLesson(day: Day, time: string, lesson: Lesson)
  {
    if lesson.date.None? || lesson.status == "cancelled" then false
    else if !SameDay(lesson.date, day) then false
    else Overlaps(time, TestMinutes, lesson)
  }

  /** `lessons.find(...) || null`: the lesson the test would run into, if any. */
  function LessonClash(day: Day, time: string, lessons: seq<Lesson>): (r: Option<Lesson>)
    ensures r.Some? ==>
      r.value in lessons && r.value.status != "cancelled" && SameDay(r.value.date, day) &&
      Overlaps(time, TestMinutes, r.value)
    ensures r.None? <==> forall l :: l in lessons ==> !ClashesWithLesson(day, time, l)
  {
    Find(lessons, l => ClashesWithLesson(day, time, l))
  }

  /** The reported lesson is the first clashing one in list order. */
  lemma LessonClashIsFirst(day: Day, time: string, lessons: seq<Lesson>) returns (i: nat)
    requires LessonClash(day, time, lessons).Some?
    ensures i < |lessons| && lessons[i] == LessonClash(day, time, lessons).value
    ensures forall j :: 0 <= j < i ==> !ClashesWithLesson(day, time, lessons[j])
  {
    i := FindFirst(lessons, l => ClashesWithLesson(day, time, l));
  }

  /** A cancelled lesson, or one on another day or without a date, can be added or removed without changing the clash. */
  lemma OtherLessonsIgnored(day: Day, time: string, a: seq<Lesson>, l: Lesson, b: seq<Lesson>)
    requires l.status == "cancelled" || !SameDay(l.date, day)
    ensures LessonClash(day, time, a + [l] + b) == LessonClash(day, time, a + b)
  {
    FindSkips(a, l, b, m => ClashesWithLesson(day, time, m));
  }

  /**
    Every lesson `checkTimeConflict` would report for a two-hour slot at the
    test's time is also in the test's way, so a test without a lesson clash
    has no lesson conflict either.
  */
  lemma LessonClashCoversConflicts(day: Day, time: string, lessons: seq<Lesson>)
    ensures CheckTimeConflict(day, time, TestMinutes, lessons, None).hasConflict ==>
      LessonClash(day, time, lessons).Some?
  {
    hide Overlaps;
    var c := CheckTimeConflict(day, time, TestMinutes, lessons, None);
    if c.hasConflict {
      var l := c.conflictingLesson.value;
      assert ClashesWithLesson(day, time, l);
    }
  }

  /**
    The converse does not hold: a completed lesson is in a test's way,
    while the lesson check, which looks at scheduled lessons only, lets it pass.
  */
  lemma CompletedLessonsClash(day: Day, time: string, l: Lesson)
    requires l.status == "completed" && SameDay(l.date, day) && Overlaps(time, TestMinutes, l)
    ensures LessonClash(day, time, [l]) == Some(l)
    ensures !CheckTimeConflict(day, time, TestMinutes, [l], None).hasConflict
  {
    assert ClashesWithLesson(day, time, l);
    assert !OnDay(l, day);
  }

  /**
    The two dialogs agree about a scheduled lesson and a booked test on the
    same day: the lesson dialog sees the test in the lesson's way exactly
    when the test dialog sees the lesson in the test's way.
  */
  lemma DialogsAgree(lesson: Lesson, test: DrivingTest)
    requires lesson.status == "scheduled" && test.status == "booked" && SameDay(lesson.date, test.date)
    ensures ClashesWithTest(lesson.date, lesson.start_time, lesson.duration_minutes, test) ==
            ClashesWithLesson(test.date, test.time, lesson)
  {
    if IsTimeText(lesson.start_time) && IsTimeText(test.time) {
      TimeRangesOverlapSymmetric(lesson.start_time, lesson.duration_minutes, test.time, TestMinutes);
    }
  }

  // ---------------------------------------------------------------------------
  // The form and the test it saves

  const DefaultLocation := "Worcester Test Centre"
  const ChooseStudentMessage := "Please choose a student"
  const StudentNotFoundMessage := "Student not found"
  const CreateFailedMessage := "Unable to create test"

  /** `formData` */
  datatype TestFormData = TestFormData(student_id: string, car: string, location: string, date: string, time: string, notes: string)

  /** The form of the first render and of `resetForm`, dated `today`. */
  function BlankTestForm(today: string): TestFormData
  {
    TestFormData("", "instructor", DefaultLocation, today, "09:00", "")
  }

  /** `errors`: a message for the student field and a general one. */
  datatype TestErrors = TestErrors(student_id: Option<string>, general: Option<string>)

  const NoTestErrors := TestErrors(None, None)

  /** `payload`; `date` is the text `new Date` parses: the form's date and time joined by `T`. */
  datatype TestData = TestData(student_id: string, car: string, location: string, date: string, time: string, notes: string, student_name: string)

  function TestPayload(f: TestFormData, studentName: string): TestData
  {
    TestData(f.student_id, f.car, f.location, f.date + "T" + f.time, f.time, f.notes, studentName)
  }

  /** The payload's date begins with the form's date and ends with its time. */
  lemma TestPayloadDate(f: TestFormData, studentName: string)
    ensures var d := TestPayload(f, studentName);
      |d.date| == |f.date| + 1 + |f.time| &&
      d.date[..|f.date|] == f.date && d.date[|f.date|] == 'T' && d.date[|f.date| + 1..] == f.time &&
      d.time == f.time && d.student_name == studentName && d.student_id == f.student_id
  {
    var d := TestPayload(f, studentName);
    assert d.date == f.date + ("T" + f.time);
    assert d.date[|f.date|..] == "T" + f.time;
    assert d.date[|f.date| + 1..] == d.date[|f.date|..][1..];
  }

  /** What `onCreate` resolves to: nothing, or an object whose `success` may be missing. */
  datatype CreateOutcome = NoOutcome | Outcome(success: Option<bool>, error: string)

  /** `result?.success === false` */
  predicate Failed(r: CreateOutcome)
  {
    r.Outcome? && r.success == Some(false)
  }

  /** `result.error || 'Unable to create test'` */
  function FailureMessage(r: CreateOutcome): (m: string)
    requires Failed(r)
    ensures m != ""
    ensures m == r.error || m == CreateFailedMessage
  {
    if r.error != "" then r.error else CreateFailedMessage
  }

  // ---------------------------------------------------------------------------
  // The dialog

  class TestDialog {
    var formData: TestFormData
    var errors: TestErrors
    var loading: bool
    var lessonConflict: Option<Lesson>
    /** `onClose` has been called. */
    var closed: bool

    constructor(today: string)
      ensures formData == BlankTestForm(today) && errors == NoTestErrors
      ensures !loading && lessonConflict.None? && !closed
    {
      formData := BlankTestForm(today);
      errors := NoTestErrors;
      loading := false;
      lessonConflict := None;
      closed := false;
    }

    /** The clash effect: without a date or a time there is no clash to report. */
    method UpdateLessonConflict(day: Day, lessons: seq<Lesson>)
      modifies this`lessonConflict
      ensures formData.date == "" || formData.time == "" ==> lessonConflict.None?
      ensures formData.date != "" && formData.time != "" ==> lessonConflict == LessonClash(day, formData.time, lessons)
    {
      if formData.date == "" || formData.time == "" {
        lessonConflict := None;
        return;
      }
      lessonConflict := LessonClash(day, formData.time, lessons);
    }

    /**
      `handleSubmit`. It returns the test handed to `onCreate`, if any. A
      missing student or an unknown one stops with a message on the student
      field; a lesson clash the user does not confirm stops the save; a
      result that is not a failure resets and closes the dialog.
    */
    method Submit(studentName: Option<string>, proceed: bool, result: CreateOutcome, today: string)
      returns (created: Option<TestData>)
      modifies this`formData, this`errors, this`loading, this`closed
      ensures created.Some? ==>
        old(formData).student_id != "" && studentName.Some? && (old(lessonConflict).None? || proceed)
      ensures old(formData).student_id == "" ==>
        errors == TestErrors(Some(ChooseStudentMessage), None) && loading == old(loading) &&
        formData == old(formData) && closed == old(closed)
      ensures old(formData).student_id != "" && studentName.None? ==>
        errors == TestErrors(Some(StudentNotFoundMessage), None) && !loading &&
        formData == old(formData) && closed == old(closed)
      ensures old(formData).student_id != "" && studentName.Some? && lessonConflict.Some? && !proceed ==>
        errors == old(errors) && !loading && formData == old(formData) && closed == old(closed)
      ensures old(formData).student_id != "" && studentName.Some? && (lessonConflict.None? || proceed) ==>
        created == Some(TestPayload(old(formData), studentName.value)) && !loading &&
        if Failed(result) then
          errors == TestErrors(None, Some(FailureMessage(result))) && formData == old(formData) && closed == old(closed)
        else
          errors == NoTestErrors && formData == BlankTestForm(today) && closed
    {
      if formData.student_id == "" {
        errors := TestErrors(Some(ChooseStudentMessage), None);
        return None;
      }
      loading := true;
      if studentName.None? {
        errors := TestErrors(Some(StudentNotFoundMessage), None);
        loading := false;
        return None;
      }
      var payload := TestPayload(formData, studentName.value);
      if lessonConflict.Some? && !proceed {
        loading := false;
        return None;
      }
      created := Some(payload);
      loading := false;
      if Failed(result) {
        errors := TestErrors(None, Some(FailureMessage(result)));
      } else {
        formData := BlankTestForm(today);
        errors := NoTestErrors;
        closed := true;
      }
    }
  }
}
