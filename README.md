# Driving-school back office: scheduling core in Dafny

This project models the scheduling core of the RJM driving-school web site
and its admin back office. Everything is proved by the Dafny verifier.

- **Time strings.** Lesson times are `"HH:MM"` strings. They are shifted by
  `addMinutes` and compared as strings.
- **Clock helper twin.** The seeding script has its own clock helper that
  normalises into the day first.
- **Postcode and form helpers.** These check UK postcodes, e-mail addresses
  and mobile numbers, and build the error maps of the lesson and student forms.
- **Slot recommender.** It suggests a lesson time next to a lesson in the
  same postcode area. Failing that, it picks the earliest gap in the day.
  The conflict detector reports a clashing lesson.
- **Booking dialogs.** The lesson and test dialogs check for clashes and guard
  their submit handlers.
- **Site fragments.** Package pricing, towing price, the custom-hours clamp,
  the coverage check, the carousel index and the recently-passed and enquiry
  list updates.
- **Student searches.** The student list search and the student picker search.

Modules follow the source files:

| module | source |
|---|---|
| `Wrappers` | the `Option` type for values that may be missing (`null`, `undefined`, no match) |
| `Text` | the JavaScript string built-ins the helpers use (case mapping, whitespace, `trim`, `includes`, `<` on strings, `String(n)`) |
| `Regex` | `RegExp.test` and `String.match` for the patterns the helpers use: a sequence of character classes with repetition counts |
| `Lists` | `Array.filter`, `Array.find` and a stable `Array.sort`, stated once for all element types |
| `TimeHelpers` | src/utils/timeHelpers.js |
| `PostcodeHelpers` | src/utils/postcodeHelpers.js |
| `Validation` | src/utils/validation.js |
| `LessonRecommendations` | src/utils/lessonRecommendations.js |
| `SetupFirestore` | scripts/setupFirestore.js |
| `CreateLessonModal` | src/components/admin/LessonPlanner/CreateLessonModal.jsx |
| `CreateTestModal` | src/components/admin/Tests/CreateTestModal.jsx |
| `App` | src/App.jsx |
| `StudentsTab` | src/components/admin/Students/StudentsTab.jsx |
| `StudentDropdown` | src/components/admin/LessonPlanner/StudentDropdown.jsx |

Three behaviours of the code are worth knowing before reading the model:

- `getPostcodeArea` removes all whitespace before matching
  `/^[A-Z]{1,2}\d{1,2}/`, so `getPostcodeArea("wr6 6hu")` is `"WR66"`: the
  area takes the first digit of the inward code too
  (`PostcodeHelpers.GetPostcodeAreaExamples`).
- `addMinutes` uses JavaScript's truncating `%`. It wraps totals that are not
  negative into the day, but a negative total prints negative fields:
  `addMinutes("00:10", -20)` is `"-1:-10"`
  (`TimeHelpers.AddMinutesNegativeExample`).
- The recommender and the conflict check look only at lessons whose status
  is exactly `'scheduled'`, so completed lessons are ignored as well as
  cancelled ones. The test dialog's clash check ignores cancelled lessons
  only (`CreateTestModal.CompletedLessonsClash`).

## Model

| member | source | states |
|---|---|---|
| TimeHelpers.JsRem | src/utils/timeHelpers.js:4-5 | JavaScript `%`: for a non-negative dividend it is the usual remainder, for a negative one it lies in (-b, 0] |
| TimeHelpers.RenderParse | src/utils/timeHelpers.js:6 | every string the `HH:MM` template prints parses back (`split(':').map(Number)`) to the two integers printed |
| TimeHelpers.ClockIsTimeText | src/utils/timeHelpers.js:29-32 | `parseTime` of a zero-padded clock reads its two-digit fields, so its minute count is within the day |
| TimeHelpers.ClockOfTotalMinutes | src/utils/timeHelpers.js:29-32 | a clock is determined by its minute count |
| TimeHelpers.ParseTimeRoundTrip | src/utils/timeHelpers.js:29-32 | printing the parsed fields of a clock gives the clock back |
| TimeHelpers.ClockOrder | src/utils/timeHelpers.js:18 | on well-formed clocks string `<` is the order of minute counts |
| TimeHelpers.AddMinutes | src/utils/timeHelpers.js:1-7 | the result always parses as two numbers joined by a colon |
| TimeHelpers.AddMinutesWraps | src/utils/timeHelpers.js:1-7 | for a non-negative total the result is a well-formed clock showing (t + m) mod 1440 |
| TimeHelpers.AddMinutesWithinDay | src/utils/timeHelpers.js:1-7 | inside the day `addMinutes` adds exactly m minutes |
| TimeHelpers.AddMinutesZero | src/utils/timeHelpers.js:1-7 | adding zero minutes returns a clock unchanged |
| TimeHelpers.AddMinutesBelowMidnight | src/utils/timeHelpers.js:4-5 | for a negative total the result sorts before "08:00" and is a clock only on whole days |
| TimeHelpers.AddMinutesNegativeExample | src/utils/timeHelpers.js:4-5 | "00:10" minus 20 minutes prints "-1:-10" |
| TimeHelpers.AddMinutesWrapExample | src/utils/timeHelpers.js:3-6 | "23:30" plus 45 minutes wraps to "00:15" |
| TimeHelpers.MinutesBetweenAddMinutes | src/utils/timeHelpers.js:9-13 | `minutesBetween(t, addMinutes(t, m)) == m` while the sum stays within the day |
| TimeHelpers.MinutesBetweenAntisymmetric | src/utils/timeHelpers.js:9-13 | `minutesBetween` is antisymmetric and zero on equal times |
| TimeHelpers.TimeRangesOverlapSymmetric | src/utils/timeHelpers.js:15-19 | the overlap test is symmetric |
| TimeHelpers.OverlapIsHalfOpen | src/utils/timeHelpers.js:15-19 | for clock intervals inside the day the string test is half-open interval overlap on minute counts |
| TimeHelpers.OverlapSelf | src/utils/timeHelpers.js:15-19 | a non-empty interval inside the day overlaps itself |
| TimeHelpers.AdjacentRangesDoNotOverlap | src/utils/timeHelpers.js:15-19 | 09:00 for 60 minutes and 10:00 for 60 minutes do not overlap |
| TimeHelpers.WrappingRangeMissesItself | src/utils/timeHelpers.js:15-19 | 23:00 for 120 minutes does not overlap itself, because its end wraps to 01:00 |
| TimeHelpers.FormatDurationRoundTrip | src/utils/timeHelpers.js:21-27 | for non-negative minutes the label is one of `Mm`, `Hh`, `Hh Mm` and reads back as the same number of minutes |
| TimeHelpers.FormatDurationExamples | src/utils/timeHelpers.js:21-27 | 0, 45, 60 and 90 minutes print as "0m", "45m", "1h" and "1h 30m" |
| SetupFirestore.NormalizedIsEuclidean | scripts/setupFirestore.js:39 | `((total % 1440) + 1440) % 1440` with JavaScript `%` is the Euclidean remainder |
| SetupFirestore.AddMinutesToTimeString | scripts/setupFirestore.js:36-43 | the result is always a well-formed clock showing the Euclidean (t + m) mod 1440 |
| SetupFirestore.AgreesWithAddMinutes | scripts/setupFirestore.js:36-43 | agrees with `addMinutes` whenever the total is non-negative |
| SetupFirestore.AddThenSubtract | scripts/setupFirestore.js:39 | adding m and then -m minutes returns the original clock |
| SetupFirestore.AddWholeDay | scripts/setupFirestore.js:39 | adding 1440 minutes returns the original clock |
| SetupFirestore.SeededLessonEnd | scripts/setupFirestore.js:91-93 | the seeded lesson starting at 10:00 for 60 minutes ends at "11:00" |
| Regex.FirstMatchSplits | src/utils/postcodeHelpers.js:1-6 | the backtracking matcher behind `test` accepts a string exactly when the pattern's pieces can split it |
| PostcodeHelpers.Normalize | src/utils/postcodeHelpers.js:5 | uppercasing and deleting whitespace leaves no whitespace and never lengthens the text |
| PostcodeHelpers.NormalizeSpaceInsensitive | src/utils/postcodeHelpers.js:5 | deleting one whitespace character from the input does not change the normalised postcode |
| PostcodeHelpers.NormalizeCaseInsensitive | src/utils/postcodeHelpers.js:5 | upper- or lower-casing the input first does not change the normalised postcode |
| PostcodeHelpers.NormalizeIdempotent | src/utils/postcodeHelpers.js:5 | a normalised postcode is upper case and normalises to itself |
| PostcodeHelpers.ValidateUKPostcodeShape | src/utils/postcodeHelpers.js:1-7 | a postcode is valid exactly when its normalised form is an outward code (1-2 letters, 1-2 digits, an optional letter) followed by a digit and two letters |
| PostcodeHelpers.ValidPostcodeLength | src/utils/postcodeHelpers.js:1-7 | a valid postcode has 5 to 8 characters once normalised |
| PostcodeHelpers.ValidateRejectsEmpty | src/utils/postcodeHelpers.js:4 | the empty postcode is invalid |
| PostcodeHelpers.ValidateSpaceInsensitive | src/utils/postcodeHelpers.js:3-7 | whitespace anywhere in the input does not change validity |
| PostcodeHelpers.ValidateCaseInsensitive | src/utils/postcodeHelpers.js:1-7 | letter case does not change validity |
| PostcodeHelpers.FormatPostcodeSpaces | src/utils/postcodeHelpers.js:9-18 | up to 5 characters come back normalised; longer ones get exactly one space, before the last three characters |
| PostcodeHelpers.NormalizeFormatPostcode | src/utils/postcodeHelpers.js:9-18 | formatting keeps the postcode: its normalised form is unchanged |
| PostcodeHelpers.FormatPostcodeIdempotent | src/utils/postcodeHelpers.js:9-18 | formatting a formatted postcode changes nothing |
| PostcodeHelpers.FormatPostcodeKeepsValidity | src/utils/postcodeHelpers.js:9-18 | a postcode is valid after formatting exactly when it was valid before |
| PostcodeHelpers.AreaOf | src/utils/postcodeHelpers.js:24-25 | the area is a prefix of the normalised postcode, empty or 2 to 4 characters long |
| PostcodeHelpers.GetPostcodeAreaIsAreaOf | src/utils/postcodeHelpers.js:20-26 | `match(...)[0]`, or `''` without a match, is the leading letters-then-digits run read off the normalised postcode |
| PostcodeHelpers.GetPostcodeAreaPrefix | src/utils/postcodeHelpers.js:20-26 | the area is a prefix of the normalised postcode and is empty or 2 to 4 characters long |
| PostcodeHelpers.AreaRunsIntoSector | src/utils/postcodeHelpers.js:24 | for a three-character outward code ending in a digit, the area swallows the first digit of the inward code |
| PostcodeHelpers.AreaOfTwoLettersTwoDigits | src/utils/postcodeHelpers.js:24 | two letters and two digits followed by a non-digit are the whole area |
| PostcodeHelpers.NoAreaWithoutDistrict | src/utils/postcodeHelpers.js:24 | two letters not followed by a digit give no area |
| PostcodeHelpers.GetPostcodeAreaExamples | src/utils/postcodeHelpers.js:20-26 | `"wr6 6hu"` has area `"WR66"`, and `"invalid"` has none |
| PostcodeHelpers.PostcodesAreSimilarSymmetric | src/utils/postcodeHelpers.js:28-32 | similarity is symmetric |
| PostcodeHelpers.UnparseableNeverSimilar | src/utils/postcodeHelpers.js:31 | a postcode without an area is similar to nothing, itself included |
| PostcodeHelpers.PostcodesAreSimilarTransitive | src/utils/postcodeHelpers.js:28-32 | similarity is transitive |
| PostcodeHelpers.SameDistrictDifferentSector | src/utils/postcodeHelpers.js:28-32 | `"WR6 6HU"` and `"WR6 5AB"` are not similar, because their areas are `"WR66"` and `"WR65"` |
| Validation.ValidateEmailShape | src/utils/validation.js:3-6 | an address is valid exactly when it has no whitespace, one `@` with text before it, and a `.` with text on both sides somewhere after the `@` |
| Validation.EmailOfChunks | src/utils/validation.js:3-6 | `a@b.c` is valid for any non-empty parts without whitespace or `@` |
| Validation.ValidateEmailExamples | src/utils/validation.js:3-6 | `student@example.com` is valid; `student@example` and `a@b@c.d` are not |
| Validation.SecondAtNoEmail | src/utils/validation.js:4 | an address with a second `@` is invalid |
| Validation.NoDotNoEmail | src/utils/validation.js:4 | an address without a `.` is invalid |
| Validation.ValidateUKPhoneShape | src/utils/validation.js:8-13 | a phone number is valid exactly when, without whitespace, it is `07` followed by nine digits |
| Validation.ValidateUKPhoneSpaceInsensitive | src/utils/validation.js:10 | whitespace anywhere does not change validity |
| Validation.ValidateUKPhoneExamples | src/utils/validation.js:8-13 | `07123 456789` is valid and `01905 123456` is not |
| Validation.ValidateRequiredMeaning | src/utils/validation.js:15-20 | a value is present when it is a number, or a string that is not blank |
| Validation.ValidateMinLengthMeaning | src/utils/validation.js:22-24 | a value is long enough when it is a string of at least that length |
| Validation.RequiredPostcode | src/utils/validation.js:45 | a required, valid postcode is one whose normalised form has the postcode shape |
| Validation.RequiredEmail | src/utils/validation.js:63 | a required, valid e-mail address is one with the e-mail shape |
| Validation.RequiredPhone | src/utils/validation.js:67 | a required, valid phone number is one whose space-free form is a UK mobile number |
| Validation.LessonErrorsEmpty | src/utils/validation.js:53 | the errors object has no keys exactly when it records no error |
| Validation.ValidateLessonForm | src/utils/validation.js:26-54 | each field gets its message exactly when its check fails (an empty end postcode is allowed), and the form is valid exactly when no message was set |
| Validation.StudentErrorsEmpty | src/utils/validation.js:79 | the errors object has no keys exactly when it records no error |
| Validation.ValidateStudentForm | src/utils/validation.js:56-80 | each field gets its message exactly when its check fails (the emergency phone only when one is given), and the form is valid exactly when no message was set |
| LessonRecommendations.DayLessons | src/utils/lessonRecommendations.js:11-13 | the day's lessons are a permutation of the scheduled lessons on the date, in start-time order |
| LessonRecommendations.DayLessonsStable | src/utils/lessonRecommendations.js:11-13 | the sort is stable: lessons of the day with the same start time keep the order of the stored list |
| LessonRecommendations.DayLessonsIgnoresOtherLessons | src/utils/lessonRecommendations.js:11-12 | a lesson that is not scheduled on the date can be added or removed without changing the day's lessons |
| LessonRecommendations.AfterTime | src/utils/lessonRecommendations.js:31 | the slot after a lesson always parses as a time |
| LessonRecommendations.BeforeTime | src/utils/lessonRecommendations.js:46 | the slot before a lesson always parses as a time |
| LessonRecommendations.Adjacent | src/utils/lessonRecommendations.js:38-56 | a slot next to a lesson is explained as travel from it or travel to it |
| LessonRecommendations.FreeIsNoOverlap | src/utils/lessonRecommendations.js:34-36 | `dayLessons.some(overlap)` is false exactly when no scheduled lesson of the day overlaps |
| LessonRecommendations.FitsIsFitsNextTo | src/utils/lessonRecommendations.js:34-51 | the loop takes a lesson exactly when the slot after it is free and before 20:00, or the slot before it is free and not before 08:00 |
| LessonRecommendations.ReasonHeads | src/utils/lessonRecommendations.js:17-64 | the first-lesson and earliest reasons start with `F` and `E` and both adjacency reasons with `R`, so a reason's first letter tells which branch produced it |
| LessonRecommendations.ComputeRecommendedSlot | src/utils/lessonRecommendations.js:9-66 | the recommended time always parses as a time |
| LessonRecommendations.ComputeCases | src/utils/lessonRecommendations.js:9-66 | the result is the first-lesson slot for an empty day, the slot next to the first similar lesson that fits, or else the earliest available slot |
| LessonRecommendations.RecommendEmptyDay | src/utils/lessonRecommendations.js:15-18 | the reason is "First lesson of the day" exactly when no lesson is scheduled that day, and then the time is 08:00 |
| LessonRecommendations.RecommendNextToSimilar | src/utils/lessonRecommendations.js:27-57 | an adjacent recommendation is next to a scheduled lesson of the day in the same area that fits, after it when that slot is free, and no earlier-starting similar lesson fits |
| LessonRecommendations.RecommendEarliest | src/utils/lessonRecommendations.js:60-65 | the reason is "Earliest available time slot" exactly when the day has lessons and none of the similar ones has a free adjacent slot |
| LessonRecommendations.RecommendEarliestTime | src/utils/lessonRecommendations.js:60-65 | the fallback time is the earliest available slot of the day's lessons |
| LessonRecommendations.RecommendationHasNoConflict | src/utils/lessonRecommendations.js:29-56 | a first-lesson or adjacent recommendation never conflicts with a scheduled lesson of the day |
| LessonRecommendations.ComputeThroughDay | src/utils/lessonRecommendations.js:11-13 | the recommendation depends on the existing lessons only through the day's lessons |
| LessonRecommendations.RecommendIgnoresOtherLessons | src/utils/lessonRecommendations.js:11-13 | lessons on other days, or not scheduled, can be added or removed without changing the recommendation |
| LessonRecommendations.FirstGap | src/utils/lessonRecommendations.js:77-86 | the gap found is the first one of at least duration + 30 minutes, and without one every gap is shorter |
| LessonRecommendations.EarliestAvailableSlot | src/utils/lessonRecommendations.js:68-98 | the earliest slot always parses as a time |
| LessonRecommendations.EarliestSlotAtStartOfDay | src/utils/lessonRecommendations.js:73-75 | with no lessons, or a first lesson starting at least duration minutes after 08:00, the slot is 08:00 |
| LessonRecommendations.GapSlot | src/utils/lessonRecommendations.js:83-85 | in a gap of at least duration + 30 minutes, the slot 15 minutes after the earlier lesson leaves 15 minutes before the next |
| LessonRecommendations.LastSlot | src/utils/lessonRecommendations.js:89-94 | for a lesson ending on a clock time, a slot after it that sorts before 20:00 is a clock time before 20:00 |
| LessonRecommendations.EarliestSlotAfterLesson | src/utils/lessonRecommendations.js:77-94 | a slot other than 08:00 is 15 minutes after some lesson; every earlier gap was too short, and the slot leaves a buffer before the next lesson or ends the day before 20:00 |
| LessonRecommendations.CheckTimeConflict | src/utils/lessonRecommendations.js:103-120 | a conflict is reported exactly when some scheduled lesson of the day, other than the excluded one, overlaps, and the lesson reported is such a lesson |
| LessonRecommendations.ConflictIsFirst | src/utils/lessonRecommendations.js:110-117 | the lesson reported is the first overlapping one in list order |
| LessonRecommendations.NoConflictIsFree | src/utils/lessonRecommendations.js:103-120 | with nothing excluded, no conflict means no scheduled lesson of the day overlaps |
| CreateLessonModal.TestClash | src/components/admin/LessonPlanner/CreateLessonModal.jsx:94-104 | a test is reported only when it is booked, on the same day and overlapping the lesson, and none is reported exactly when no test clashes |
| CreateLessonModal.TestClashIsFirst | src/components/admin/LessonPlanner/CreateLessonModal.jsx:94-104 | the reported test is the first clashing one in list order |
| CreateLessonModal.OtherTestsIgnored | src/components/admin/LessonPlanner/CreateLessonModal.jsx:95-96 | tests that are not booked, or not on the day, can be added or removed without changing the clash |
| CreateLessonModal.TestClashWindow | src/components/admin/LessonPlanner/CreateLessonModal.jsx:97-102 | on clock times inside the day, a booked test clashes exactly when the lesson and the test's two hours share a minute |
| CreateLessonModal.PayloadPostcodes | src/components/admin/LessonPlanner/CreateLessonModal.jsx:152-157 | the saved postcodes are already formatted and as valid as the ones typed, and an empty end postcode becomes the start postcode |
| CreateLessonModal.PayloadKeepsForm | src/components/admin/LessonPlanner/CreateLessonModal.jsx:150-157 | the saved lesson keeps the form's student, date, time and duration, adds the student's name, and keeps the start postcode's letters and digits |
| CreateLessonModal.ReportsNothingIffPasses | src/utils/validation.js:26-54 | the field messages the form gets are empty exactly when the form passes validation |
| CreateLessonModal.LessonDialog.constructor | src/components/admin/LessonPlanner/CreateLessonModal.jsx:23-43 | the dialog opens with the blank form, no errors, no recommendation or conflicts, not loading |
| CreateLessonModal.LessonDialog.UpdateRecommendation | src/components/admin/LessonPlanner/CreateLessonModal.jsx:69-80 | a recommendation is computed only when date, start postcode and duration are all set; otherwise the old one stays |
| CreateLessonModal.LessonDialog.UpdateConflicts | src/components/admin/LessonPlanner/CreateLessonModal.jsx:82-109 | with date, start time and duration both conflicts are checked, otherwise both are cleared |
| CreateLessonModal.LessonDialog.Submit | src/components/admin/LessonPlanner/CreateLessonModal.jsx:131-169 | a lesson is saved only from a valid form without an unconfirmed conflict; an invalid form gets exactly the messages of its failing fields; every stop keeps the form, the recommendation and both conflicts; success resets the form, errors, recommendation and lesson conflict and closes; failure shows the error |
| CreateTestModal.LessonClash | src/components/admin/Tests/CreateTestModal.jsx:81-93 | a lesson is reported only when it is dated, not cancelled, on the same day and overlapping the test's two hours, and none exactly when no lesson clashes |
| CreateTestModal.LessonClashIsFirst | src/components/admin/Tests/CreateTestModal.jsx:87-92 | the reported lesson is the first clashing one in list order |
| CreateTestModal.OtherLessonsIgnored | src/components/admin/Tests/CreateTestModal.jsx:88-89 | cancelled lessons and lessons on other days can be added or removed without changing the clash |
| CreateTestModal.LessonClashCoversConflicts | src/components/admin/Tests/CreateTestModal.jsx:87-91 | every lesson the lesson conflict check would report for the test's two hours is also a clash here |
| CreateTestModal.CompletedLessonsClash | src/components/admin/Tests/CreateTestModal.jsx:88 | a completed lesson still clashes with a test, although the lesson conflict check ignores it |
| CreateTestModal.DialogsAgree | src/components/admin/Tests/CreateTestModal.jsx:90 | for a scheduled lesson and a booked test on the same day, each dialog sees the other booking in the way exactly when the other dialog does |
| CreateTestModal.TestPayloadDate | src/components/admin/Tests/CreateTestModal.jsx:57-61 | the saved date text is the form's date, `T`, then the form's time, and the student's name is added |
| CreateTestModal.FailureMessage | src/components/admin/Tests/CreateTestModal.jsx:72-73 | a failure shows the returned error, or "Unable to create test" when there is none |
| CreateTestModal.TestDialog.constructor | src/components/admin/Tests/CreateTestModal.jsx:15-25 | the dialog opens with the blank form for today, no errors, no clash, not loading |
| CreateTestModal.TestDialog.UpdateLessonConflict | src/components/admin/Tests/CreateTestModal.jsx:81-93 | without a date or a time there is no clash; otherwise the clash is the first clashing lesson |
| CreateTestModal.TestDialog.Submit | src/components/admin/Tests/CreateTestModal.jsx:44-79 | no student, or an unknown one, stops with its message; a declined clash stops the save; a save that is not a failure resets and closes, and a failure shows its message |
| App.SmartPricing | src/App.jsx:1582-1603 | an offer applies exactly for 2, 10 and 20 hours and sets the price; otherwise the price is hours × 35; savings are always the standard price minus the price |
| App.OfferPrices | src/App.jsx:1545-1580 | the offers cost 60, 340 and 660, and the computed savings equal each offer's advertised savings (10, 10 and 40) |
| App.OffersNeverCostMore | src/App.jsx:1582-1603 | the price never exceeds the standard price, so savings are never negative |
| App.TowingPrice | src/App.jsx:1630-1632 | nothing selected costs 0; half a day costs 200 and a full day 350, plus 50 with a trailer; any other id has no price |
| App.ParseIntOfNumeral | src/App.jsx:1817 | `parseInt` reads back any whole number followed by a non-digit |
| App.ParseIntOfBlank | src/App.jsx:1817 | `parseInt` of blank text is `NaN` |
| App.CustomHours | src/App.jsx:1817 | the hours chosen always lie in [1, 50]; text that is not a number gives 1, and numbers outside the range are clamped to its ends |
| App.CustomHoursOfBlank | src/App.jsx:1817 | an empty input selects one hour |
| App.CustomHoursRoundTrip | src/App.jsx:1817 | typing a whole number from 1 to 50 selects exactly that many hours |
| App.LeadingCode | src/App.jsx:719 | the code is empty or a prefix of the cleaned postcode: its leading capitals followed by its leading digits |
| App.IsCoveredMeaning | src/App.jsx:717-722 | a postcode is covered exactly when its code starts with `WR` and a digit from 1 to 6 |
| App.CodeOfWrDigits | src/App.jsx:719 | the code of `WR` followed only by digits is the whole text |
| App.District | src/App.jsx:697-722 | the district is empty or a prefix of the cleaned postcode: the code at the head of its outward part |
| App.LeadingCodeOfExtension | src/App.jsx:719 | the code at the head of a text is a prefix of the code at the head of any longer text |
| App.CoverageOfWr10 | src/App.jsx:697-722 | `"WR10 1AA"` counts as covered although its district `WR10` is not listed |
| App.CoverageOfWr1 | src/App.jsx:697-722 | `"WR1 1AA"`, a full postcode of a listed district, is covered by both checks |
| App.ExactCoverageIsCovered | src/App.jsx:697-722 | every postcode whose district is listed is covered by the check as written |
| App.SafeIndex | src/App.jsx:1410 | the carousel index is in [0, n) and is the index modulo n |
| App.SafeIndexSteps | src/App.jsx:1410-1413 | next and previous step the carousel by one and wrap around at both ends |
| App.WithoutIndex | src/App.jsx:3386 | filtering out one index removes exactly that element, and nothing for an index out of range |
| App.ReplaceIndex | src/App.jsx:3389 | mapping one index to the entry replaces exactly that element, and nothing for an index out of range |
| App.SiteState.constructor | src/App.jsx:3339-3340 | the site starts with the default recently-passed list and no enquiries |
| App.SiteState.AddPassed | src/App.jsx:3383-3396 | delete with an index removes that entry; an entry with an index replaces it; a new entry is put first; anything else changes nothing |
| App.SiteState.AddEnquiry | src/App.jsx:3398-3400 | the new enquiry is put first and the rest of the list is unchanged |
| StudentsTab.FilteredStudents | src/components/admin/Students/StudentsTab.jsx:9-17 | a student is shown exactly when the query appears, ignoring case, in the name, e-mail, phone or postcode, in the list's order |
| StudentsTab.EmptyQueryKeepsAll | src/components/admin/Students/StudentsTab.jsx:9-17 | an empty query shows every student |
| StudentsTab.CountLabel | src/components/admin/Students/StudentsTab.jsx:62 | read back, the numeral before the first space is the number shown; with a query `of ` and a numeral reading as the total follow, and without one nothing follows the space |
| StudentsTab.EmptyTableMessage | src/components/admin/Students/StudentsTab.jsx:79-84 | a message appears only in an empty table; it is the no-match message exactly when a query is set |
| StudentsTab.NoStudentsYet | src/components/admin/Students/StudentsTab.jsx:79-84 | without a query, the table says there are no students yet exactly when there are none |
| StudentDropdown.SelectedStudent | src/components/admin/LessonPlanner/StudentDropdown.jsx:10-12 | the selected student has the chosen id, and there is none exactly when no student has it |
| StudentDropdown.SelectedIsFirst | src/components/admin/LessonPlanner/StudentDropdown.jsx:10-12 | the selected student is the first with that id |
| StudentDropdown.DropdownStudents | src/components/admin/LessonPlanner/StudentDropdown.jsx:14-24 | an empty query shows the list unchanged; otherwise a student is shown exactly when the query appears in the name or postcode, in the list's order |
| StudentDropdown.DropdownWithinTab | src/components/admin/LessonPlanner/StudentDropdown.jsx:17-23 | the picker shows the student list's search result narrowed to name and postcode matches |
| StudentDropdown.NoStudentsFoundMeaning | src/components/admin/LessonPlanner/StudentDropdown.jsx:45-46 | "No students found." appears exactly when a query is set and no name or postcode mentions it |

## Findings

| source | as written | input that shows it | evidently intended | confidence | as-written member | corrected member |
|---|---|---|---|---|---|---|
| src/App.jsx:697-722 | `checkPostcode` accepts any code that starts with a listed district, so `WR1` also admits WR10, WR11, WR12 and WR15 | `"WR10 1AA"` | a postcode is covered when its district, the outward code, is one of the listed ones (WR13 and WR14 are listed on their own, which a prefix test would not need); `App.IsCoveredExactly` tests that, accepts `"WR1 1AA"`, rejects `"WR10 1AA"` and accepts nothing the check as written rejects (`App.ExactCoverageIsCovered`) | medium; not executed | App.CoverageOfWr10 | App.CoverageOfWr1 |

## Left out

- Unicode: case mapping, `\s` and `trim` are modelled on ASCII only.
- I/O: Firestore reads and writes, React rendering and effects scheduling, `localStorage` and `console` are not modelled. Each effect and handler is a method the caller runs; what it would read from outside is a parameter.
- Dates: `new Date(...)`, `toISOString` and `isSameDay` are not modelled. A calendar day is an integer, or missing, and two days are the same when both are present and equal.
- `localeCompare` on start times is modelled as code-unit order. The two agree on `HH:MM` clocks.
- `window.confirm`, `getStudentById`, `createLesson` and `onCreate` are parameters: the user's answer, the name found (or none), and the result.
- Lesson records: the recommender requires every stored lesson to have a start time that parses and an end time equal to `addMinutes(start, duration)`, as `createLesson` and `updateLesson` store them.
- Unparseable times: `addMinutes` of text whose fields `Number` reads as NaN (such as `""` or `"ab:cd"`) returns `"NaN:NaN"`, and `timeRangesOverlap` still compares the strings, so such a time can overlap (`timeRangesOverlap("", 60, "10:00", 60)` is true). The model defines the overlap test on times that parse only, and takes a candidate or lesson time that does not parse to overlap nothing.
- TimeHelpers.IsTimeText: accepts a numeral, `:` and a numeral only, a subset of the text `split(':').map(Number)` reads as two numbers. Other number syntax the source accepts (an empty field read as 0, as in `"10:"`; extra `:` fields, as in `"9:30:00"`; surrounding whitespace; a `+` sign; a fraction or exponent) is treated as not parsing, so such a time overlaps nothing in the model. The `type="time"` inputs never produce such text.
- CreateLessonModal.LessonDialog.Submit: when `getStudentById` finds no student, `student.name` throws. The model stops there with `loading` still true and does not model the thrown error.
- The lesson dialog's `handleChange`, `handleUseRecommendation`, the `isOpen` effect and the postcode autofill effect (src/components/admin/LessonPlanner/CreateLessonModal.jsx:45-67, 111-129) are not part of this model. The same goes for the test dialog's `handleChange`. They only copy values into the form.
- LessonRecommendations.EarliestSlotAtStartOfDay: stated only for clock times, with 08:00 plus the duration inside the day.
- LessonRecommendations.EarliestSlotAfterLesson: stated only for days whose lessons start and end on clock times.
- LessonRecommendations.GapSlot: stated only for clock times and non-negative durations.
- CreateLessonModal.TestClashWindow: stated only for clock times whose intervals stay inside the day.
- App.ParseInt: `parseInt` without a radix also reads `0x` prefixes as hexadecimal. The model reads decimal text only, which is what a number input produces.
- App.TowingPrice: where the source throws on an unknown option id, the model returns no price.
- App.SafeIndex: requires a non-empty list of people. The source's list is a constant with four entries.
- The second `towingOptions` list (src/App.jsx:2348) and the other sections of src/App.jsx are not part of this model. They are presentational or use floating-point per-hour prices.
- Regular expressions: only the features the helpers' patterns use are modelled (character classes, literals and counted repetition, anchored at the start).
