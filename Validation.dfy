/**
  Form validation (src/utils/validation.js): recognisers for e-mail
  addresses and UK mobile numbers, the `required` and minimum-length checks,
  and the two builders of the error map shown by the lesson form and the
  student form.
*/
module Validation {
  import opened Text
  import opened Wrappers
  import opened Regex
  import opened PostcodeHelpers

  // ---------------------------------------------------------------------------
  // validateEmail

  const EmailChunk: Piece := Piece(NotSpaceOrAt, 1, None)
  const AtSign: Piece := Piece(Lit('@'), 1, Some(1))
  const Dot: Piece := Piece(Lit('.'), 1, Some(1))

  /** `/^[^\s@]+@[^\s@]+\.[^\s@]+$/` */
  const EmailPattern: seq<Piece> := [EmailChunk, AtSign, EmailChunk, Dot, EmailChunk]

  /** `validateEmail(email)` */
  predicate ValidateEmail(email: string)
  {
    Test(EmailPattern, email)
  }

  /**
    What the e-mail pattern asks for: no whitespace, exactly one `@` and not
    at the start, and after it a `.` with at least one character on each side.
  */
  predicate EmailShape(s: string)
  {
    var i := IndexOf(s, '@');
    && NoSpace(s) && 0 < i < |s|
    && (forall k :: i < k < |s| ==> s[k] != '@')
    && exists j :: i + 1 < j < |s| - 1 && s[j] == '.'
  }

  /** The cuts the pattern makes in an address `a@b.c`: the `@` at `i`, the `.` at `j`. */
  predicate EmailCuts(s: string, i: int, j: int)
  {
    && 0 < i && i + 1 < j < |s| - 1 && s[i] == '@' && s[j] == '.'
    && AllIn(NotSpaceOrAt, s[..i]) && AllIn(NotSpaceOrAt, s[i + 1..j]) && AllIn(NotSpaceOrAt, s[j + 1..])
  }

  lemma EmailSplitsCuts(s: string) returns (i: int, j: int)
    requires Splits(EmailPattern, s)
    ensures EmailCuts(s, i, j)
  {
    hide Splits, AllIn;
    var r3 := [Dot, EmailChunk];
    var r2 := [EmailChunk] + r3;
    var r1 := [AtSign] + r2;
    assert EmailPattern == [EmailChunk] + r1;
    SplitsCons(EmailChunk, r1, s);
    var n1 :| 0 <= n1 <= |s| && CountAllowed(EmailChunk, n1) && AllIn(NotSpaceOrAt, s[..n1]) && Splits(r1, s[n1..]);
    SplitsLit('@', r2, s[n1..]);
    var t2 := s[n1 + 1..];
    assert s[n1..][1..] == t2;
    SplitsCons(EmailChunk, r3, t2);
    var n2 :| 0 <= n2 <= |t2| && CountAllowed(EmailChunk, n2) && AllIn(NotSpaceOrAt, t2[..n2]) && Splits(r3, t2[n2..]);
    i, j := n1, n1 + 1 + n2;
    assert r3 == [Dot] + [EmailChunk];
    assert t2[n2..] == s[j..] && t2[..n2] == s[i + 1..j];
    SplitsLit('.', [EmailChunk], s[j..]);
    assert s[j..][1..] == s[j + 1..];
    SplitsOne(EmailChunk, s[j + 1..]);
  }

  lemma EmailCutsSplits(s: string, i: int, j: int)
    requires EmailCuts(s, i, j)
    ensures Splits(EmailPattern, s)
  {
    hide Splits, AllIn;
    var r3 := [Dot, EmailChunk];
    var r2 := [EmailChunk] + r3;
    var r1 := [AtSign] + r2;
    assert EmailPattern == [EmailChunk] + r1;
    SplitsOne(EmailChunk, s[j + 1..]);
    assert r3 == [Dot] + [EmailChunk] && s[j..][1..] == s[j + 1..];
    SplitsLit('.', [EmailChunk], s[j..]);
    var t2 := s[i + 1..];
    assert t2[..j - i - 1] == s[i + 1..j] && t2[j - i - 1..] == s[j..];
    SplitsCons(EmailChunk, r3, t2);
    assert s[i..][1..] == t2;
    SplitsLit('@', r2, s[i..]);
    SplitsCons(EmailChunk, r1, s);
  }

  lemma EmailCutsShape(s: string, i: int, j: int)
    requires EmailCuts(s, i, j)
    ensures EmailShape(s)
  {
    forall k | 0 <= k < |s|
      ensures !IsSpace(s[k]) && (k != i ==> s[k] != '@')
    {
      if k < i {
        assert s[k] == s[..i][k] && InClass(NotSpaceOrAt, s[..i][k]);
      } else if i < k < j {
        assert s[k] == s[i + 1..j][k - i - 1] && InClass(NotSpaceOrAt, s[i + 1..j][k - i - 1]);
      } else if j < k {
        assert s[k] == s[j + 1..][k - j - 1] && InClass(NotSpaceOrAt, s[j + 1..][k - j - 1]);
      }
    }
    assert IndexOf(s, '@') == i;
  }

  lemma EmailShapeCuts(s: string, j: int)
    requires EmailShape(s)
    requires IndexOf(s, '@') + 1 < j < |s| - 1 && s[j] == '.'
    ensures EmailCuts(s, IndexOf(s, '@'), j)
  {
    var i := IndexOf(s, '@');
    assert AllIn(NotSpaceOrAt, s[..i]) by {
      forall k | 0 <= k < i ensures InClass(NotSpaceOrAt, s[..i][k]) {
        assert s[..i][k] == s[k];
      }
    }
    var b, c := s[i + 1..j], s[j + 1..];
    assert AllIn(NotSpaceOrAt, b) by {
      forall k | 0 <= k < |b| ensures InClass(NotSpaceOrAt, b[k]) {
        assert b[k] == s[i + 1 + k];
      }
    }
    assert AllIn(NotSpaceOrAt, c) by {
      forall k | 0 <= k < |c| ensures InClass(NotSpaceOrAt, c[k]) {
        assert c[k] == s[j + 1 + k];
      }
    }
  }

  /** `validateEmail` accepts exactly the addresses of the shape above. */
  lemma ValidateEmailShape(email: string)
    ensures ValidateEmail(email) <==> EmailShape(email)
  {
    FirstMatchSplits(EmailPattern, email);
    if Splits(EmailPattern, email) {
      var i, j := EmailSplitsCuts(email);
      EmailCutsShape(email, i, j);
    }
    if EmailShape(email) {
      var i := IndexOf(email, '@');
      var j :| i + 1 < j < |email| - 1 && email[j] == '.';
      EmailShapeCuts(email, j);
      EmailCutsSplits(email, i, j);
    }
  }

  /** An address built from three non-empty chunks without whitespace or `@`, joined by `@` and `.`, is accepted. */
  lemma EmailOfChunks(a: string, b: string, c: string)
    requires a != [] && b != [] && c != []
    requires AllIn(NotSpaceOrAt, a) && AllIn(NotSpaceOrAt, b) && AllIn(NotSpaceOrAt, c)
    ensures ValidateEmail(a + "@" + b + "." + c)
  {
    hide Test, AllIn, Splits;
    var s := a + "@" + b + "." + c;
    var i, j := |a|, |a| + 1 + |b|;
    assert s[..i] == a && s[i + 1..j] == b && s[j + 1..] == c;
    EmailCutsSplits(s, i, j);
    FirstMatchSplits(EmailPattern, s);
  }

  lemma ValidateEmailExamples()
    ensures ValidateEmail("student@example.com")
    ensures !ValidateEmail("student@example")
    ensures !ValidateEmail("a@b@c.d")
  {
    hide ValidateEmail, EmailShape, Test, IndexOf;
    EmailOfChunks("student", "example", "com");
    assert "student" + "@" + "example" + "." + "com" == "student@example.com";
    NoDotNoEmail("student@example");
    var t := "a@b@c.d";
    assert t == "a" + ['@'] + "b@c.d";
    IndexOfAfter("a", '@', "b@c.d");
    SecondAtNoEmail(t, 3);
  }

  /** An address has only one `@`. */
  lemma SecondAtNoEmail(s: string, k: int)
    requires IndexOf(s, '@') < k < |s| && s[k] == '@'
    ensures !ValidateEmail(s)
  {
    ValidateEmailShape(s);
  }

  /** An address needs a `.`. */
  lemma NoDotNoEmail(s: string)
    requires '.' !in s
    ensures !ValidateEmail(s)
  {
    ValidateEmailShape(s);
  }

  // ---------------------------------------------------------------------------
  // validateUKPhone

  /** `/^07\d{9}$/` */
  const PhonePattern: seq<Piece> :=
    [Piece(Lit('0'), 1, Some(1)), Piece(Lit('7'), 1, Some(1)), Piece(Digit, 9, Some(9))]

  /** `validateUKPhone(phone)`: the number with its whitespace removed matches the pattern. */
  predicate ValidateUKPhone(phone: string)
  {
    Test(PhonePattern, StripSpaces(phone))
  }

  /** A UK mobile number: eleven digits starting `07`. */
  predicate PhoneShape(n: string)
  {
    |n| == 11 && n[0] == '0' && n[1] == '7' && AllDigits(n)
  }

  lemma PhoneSplits(n: string)
    ensures Splits(PhonePattern, n) <==> PhoneShape(n)
  {
    hide Splits;
    var p9 := Piece(Digit, 9, Some(9));
    assert PhonePattern == [Piece(Lit('0'), 1, Some(1))] + ([Piece(Lit('7'), 1, Some(1))] + [p9]);
    SplitsLit('0', [Piece(Lit('7'), 1, Some(1))] + [p9], n);
    if |n| >= 1 {
      SplitsLit('7', [p9], n[1..]);
      if |n| >= 2 {
        assert n[1..][1..] == n[2..] && n[1..][0] == n[1];
        SplitsOne(p9, n[2..]);
        assert AllDigits(n) <==> IsDigit(n[0]) && IsDigit(n[1]) && AllIn(Digit, n[2..]) by {
          assert forall k :: 2 <= k < |n| ==> n[k] == n[2..][k - 2];
        }
      }
    }
  }

  /** `validateUKPhone` accepts exactly the numbers that are eleven digits starting `07` once whitespace is removed. */
  lemma ValidateUKPhoneShape(phone: string)
    ensures ValidateUKPhone(phone) <==> PhoneShape(StripSpaces(phone))
  {
    FirstMatchSplits(PhonePattern, StripSpaces(phone));
    PhoneSplits(StripSpaces(phone));
  }

  /** Inserting whitespace anywhere does not change the verdict. */
  lemma ValidateUKPhoneSpaceInsensitive(a: string, c: char, b: string)
    requires IsSpace(c)
    ensures ValidateUKPhone(a + [c] + b) == ValidateUKPhone(a + b)
  {
    StripSpacesConcat(a + [c], b);
    StripSpacesConcat(a, [c]);
    StripSpacesConcat(a, b);
    assert StripSpaces([c]) == [];
    assert StripSpaces(a + [c]) == StripSpaces(a);
    assert StripSpaces(a + [c] + b) == StripSpaces(a + b);
  }

  lemma ValidateUKPhoneExamples()
    ensures ValidateUKPhone("07123 456789")
    ensures !ValidateUKPhone("01905 123456")
  {
    hide StripSpaces, ValidateUKPhone, Test;
    ValidateUKPhoneSpaceInsensitive("07123", ' ', "456789");
    assert "07123" + [' '] + "456789" == "07123 456789";
    assert "07123" + "456789" == "07123456789";
    StripSpacesOfSpaceFree("07123456789");
    ValidateUKPhoneShape("07123456789");
    ValidateUKPhoneSpaceInsensitive("01905", ' ', "123456");
    assert "01905" + [' '] + "123456" == "01905 123456";
    assert "01905" + "123456" == "01905123456";
    StripSpacesOfSpaceFree("01905123456");
    ValidateUKPhoneShape("01905123456");
  }

  // ---------------------------------------------------------------------------
  // validateRequired and validateMinLength

  /** A form value: a string, a number, or absent (`null` and `undefined`). */
  datatype Value = Absent | Text(s: string) | Number(n: int)

  /** `validateRequired(value)` */
  predicate ValidateRequired(v: Value)
  {
    match v
    case Text(s) => |Trim(s)| > 0
    case Absent => false
    case Number(_) => true
  }

  /** A string is required to hold a non-whitespace character; any number passes; absence fails. */
  lemma ValidateRequiredMeaning(v: Value)
    ensures ValidateRequired(v) <==> v.Number? || (v.Text? && !Blank(v.s))
  {
    if v.Text? {
      TrimBlank(v.s);
    }
  }

  /**
    `validateMinLength(value, minLength)`, read as a condition:
    `value && value.length >= minLength` holds for a non-empty string that is
    long enough; absence, `''` and numbers (which have no `length`) fail.
  */
  predicate ValidateMinLength(v: Value, minLength: int)
  {
    v.Text? && v.s != "" && |v.s| >= minLength
  }

  lemma ValidateMinLengthMeaning(v: Value, minLength: int)
    requires minLength >= 1
    ensures ValidateMinLength(v, minLength) <==> v.Text? && |v.s| >= minLength
  {
  }

  /** A text field of a form: absent or a string. */
  function Field(o: Option<string>): (v: Value)
    ensures v.Absent? <==> o.None?
    ensures v.Text? ==> o == Some(v.s)
  {
    match o
    case None => Absent
    case Some(s) => Text(s)
  }

  /** A numeric field of a form: absent or a number. */
  function NumberField(o: Option<int>): (v: Value)
    ensures v.Absent? <==> o.None?
    ensures v.Number? ==> o == Some(v.n)
  {
    match o
    case None => Absent
    case Some(n) => Number(n)
  }

  /** A text field holding something other than whitespace. */
  predicate Filled(o: Option<string>)
  {
    o.Some? && !Blank(o.value)
  }

  lemma RequiredField(o: Option<string>)
    ensures ValidateRequired(Field(o)) <==> Filled(o)
  {
    ValidateRequiredMeaning(Field(o));
  }

  /** Any number passes `validateRequired`, zero included. */
  lemma RequiredNumber(o: Option<int>)
    ensures ValidateRequired(NumberField(o)) <==> o.Some?
  {
  }

  // ---------------------------------------------------------------------------
  // Combined field checks

  /** A required postcode passes exactly when it has the shape of a postcode. */
  lemma RequiredPostcode(s: string)
    ensures ValidateRequired(Text(s)) && ValidateUKPostcode(s) <==> PostcodeShape(Normalize(s))
  {
    ValidateUKPostcodeShape(s);
    ValidateRequiredMeaning(Text(s));
    if PostcodeShape(Normalize(s)) {
      StripSpacesToUpper(s);
      StripSpacesBlank(s);
    }
  }

  /** A required e-mail address passes exactly when it has the shape of an address. */
  lemma RequiredEmail(s: string)
    ensures ValidateRequired(Text(s)) && ValidateEmail(s) <==> EmailShape(s)
  {
    ValidateEmailShape(s);
    ValidateRequiredMeaning(Text(s));
    if EmailShape(s) {
      assert !IsSpace(s[0]);
    }
  }

  /** A required phone number passes exactly when it is a UK mobile number. */
  lemma RequiredPhone(s: string)
    ensures ValidateRequired(Text(s)) && ValidateUKPhone(s) <==> PhoneShape(StripSpaces(s))
  {
    ValidateUKPhoneShape(s);
    ValidateRequiredMeaning(Text(s));
    StripSpacesBlank(s);
  }

  // ---------------------------------------------------------------------------
  // validateLessonForm

  /** The fields of the lesson form; the duration is always a number there. */
  datatype LessonForm = LessonForm(
    student_id: Option<string>,
    date: Option<string>,
    start_time: Option<string>,
    duration_minutes: Option<int>,
    start_postcode: Option<string>,
    end_postcode: Option<string>)

  /** The error object of the lesson form: each property is set or absent. */
  datatype LessonErrors = LessonErrors(
    student_id: Option<string>,
    date: Option<string>,
    start_time: Option<string>,
    duration_minutes: Option<string>,
    start_postcode: Option<string>,
    end_postcode: Option<string>)
  {
    /** `Object.keys(errors).length` */
    function KeyCount(): nat
    {
      (if student_id.Some? then 1 else 0) + (if date.Some? then 1 else 0) + (if start_time.Some? then 1 else 0)
      + (if duration_minutes.Some? then 1 else 0) + (if start_postcode.Some? then 1 else 0)
      + (if end_postcode.Some? then 1 else 0)
    }
  }

  /** `{}` */
  const NoLessonErrors := LessonErrors(None, None, None, None, None, None)

  /** An error object has no keys exactly when no property is set. */
  lemma LessonErrorsEmpty(e: LessonErrors)
    ensures e.KeyCount() == 0 <==> e == NoLessonErrors
  {
  }

  // The messages the validators put in the error objects.
  const StudentMessage := "Please select a student"
  const DateMessage := "Please select a date"
  const StartTimeMessage := "Please select a start time"
  const DurationMessage := "Duration must be at least 15 minutes"
  const NameMessage := "Name must be at least 2 characters"
  const EmailMessage := "Please enter a valid email address"
  const PhoneMessage := "Please enter a valid UK mobile number (07...)"
  const EmergencyPhoneMessage := "Please enter a valid UK mobile number"
  const PostcodeMessage := "Please enter a valid UK postcode"

  /** `validateLessonForm(formData)`: one error per failed field check, valid when there is none. */
  method ValidateLessonForm(f: LessonForm) returns (isValid: bool, errors: LessonErrors)
    ensures errors.student_id == if Filled(f.student_id) then None else Some(StudentMessage)
    ensures errors.date == if Filled(f.date) then None else Some(DateMessage)
    ensures errors.start_time == if Filled(f.start_time) then None else Some(StartTimeMessage)
    ensures errors.duration_minutes ==
              if f.duration_minutes.Some? && f.duration_minutes.value >= 15 then None
              else Some(DurationMessage)
    ensures errors.start_postcode ==
              if f.start_postcode.Some? && PostcodeShape(Normalize(f.start_postcode.value)) then None
              else Some(PostcodeMessage)
    ensures errors.end_postcode ==
              if f.end_postcode.Some? && f.end_postcode.value != "" && !PostcodeShape(Normalize(f.end_postcode.value))
              then Some(PostcodeMessage) else None
    ensures isValid <==> errors == NoLessonErrors
  {
    hide Normalize, PostcodeShape, Trim, ValidateUKPostcode, LessonErrors.KeyCount;
    errors := NoLessonErrors;
    RequiredField(f.student_id);
    if !ValidateRequired(Field(f.student_id)) {
      errors := errors.(student_id := Some(StudentMessage));
    }
    RequiredField(f.date);
    if !ValidateRequired(Field(f.date)) {
      errors := errors.(date := Some(DateMessage));
    }
    RequiredField(f.start_time);
    if !ValidateRequired(Field(f.start_time)) {
      errors := errors.(start_time := Some(StartTimeMessage));
    }
    RequiredNumber(f.duration_minutes);
    if !ValidateRequired(NumberField(f.duration_minutes)) || f.duration_minutes.value < 15 {
      errors := errors.(duration_minutes := Some(DurationMessage));
    }
    if f.start_postcode.Some? {
      RequiredPostcode(f.start_postcode.value);
    }
    if !ValidateRequired(Field(f.start_postcode)) || !ValidateUKPostcode(f.start_postcode.value) {
      errors := errors.(start_postcode := Some(PostcodeMessage));
    }
    if f.end_postcode.Some? && f.end_postcode.value != "" {
      ValidateUKPostcodeShape(f.end_postcode.value);
      if !ValidateUKPostcode(f.end_postcode.value) {
        errors := errors.(end_postcode := Some(PostcodeMessage));
      }
    }
    LessonErrorsEmpty(errors);
    isValid := errors.KeyCount() == 0;
  }

  // ---------------------------------------------------------------------------
  // validateStudentForm

  datatype EmergencyContact = EmergencyContact(phone: Option<string>)

  /** The fields of the student form the validator reads. */
  datatype StudentForm = StudentForm(
    name: Option<string>,
    email: Option<string>,
    phone: Option<string>,
    postcode: Option<string>,
    emergency_contact: Option<EmergencyContact>)

  /** The error object of the student form: each property is set or absent. */
  datatype StudentErrors = StudentErrors(
    name: Option<string>,
    email: Option<string>,
    phone: Option<string>,
    postcode: Option<string>,
    emergency_contact_phone: Option<string>)
  {
    /** `Object.keys(errors).length` */
    function KeyCount(): nat
    {
      (if name.Some? then 1 else 0) + (if email.Some? then 1 else 0) + (if phone.Some? then 1 else 0)
      + (if postcode.Some? then 1 else 0) + (if emergency_contact_phone.Some? then 1 else 0)
    }
  }

  /** `{}` */
  const NoStudentErrors := StudentErrors(None, None, None, None, None)

  /** An error object has no keys exactly when no property is set. */
  lemma StudentErrorsEmpty(e: StudentErrors)
    ensures e.KeyCount() == 0 <==> e == NoStudentErrors
  {
  }

  /** `formData.emergency_contact?.phone`, when it is a non-empty string. */
  predicate HasEmergencyPhone(f: StudentForm)
  {
    f.emergency_contact.Some? && f.emergency_contact.value.phone.Some? && f.emergency_contact.value.phone.value != ""
  }

  /** `validateStudentForm(formData)`: one error per failed field check, valid when there is none. */
  method ValidateStudentForm(f: StudentForm) returns (isValid: bool, errors: StudentErrors)
    ensures errors.name ==
              if Filled(f.name) && |f.name.value| >= 2 then None else Some(NameMessage)
    ensures errors.email ==
              if f.email.Some? && EmailShape(f.email.value) then None else Some(EmailMessage)
    ensures errors.phone ==
              if f.phone.Some? && PhoneShape(StripSpaces(f.phone.value)) then None
              else Some(PhoneMessage)
    ensures errors.postcode ==
              if f.postcode.Some? && PostcodeShape(Normalize(f.postcode.value)) then None else Some(PostcodeMessage)
    ensures errors.emergency_contact_phone ==
              if HasEmergencyPhone(f) && !PhoneShape(StripSpaces(f.emergency_contact.value.phone.value))
              then Some(EmergencyPhoneMessage) else None
    ensures isValid <==> errors == NoStudentErrors
  {
    hide Normalize, PostcodeShape, EmailShape, PhoneShape, StripSpaces, Trim, ValidateUKPostcode, ValidateEmail, ValidateUKPhone,
      StudentErrors.KeyCount;
    errors := NoStudentErrors;
    RequiredField(f.name);
    if !ValidateRequired(Field(f.name)) || !ValidateMinLength(Field(f.name), 2) {
      errors := errors.(name := Some(NameMessage));
    }
    if f.email.Some? {
      RequiredEmail(f.email.value);
    }
    if !ValidateRequired(Field(f.email)) || !ValidateEmail(f.email.value) {
      errors := errors.(email := Some(EmailMessage));
    }
    if f.phone.Some? {
      RequiredPhone(f.phone.value);
    }
    if !ValidateRequired(Field(f.phone)) || !ValidateUKPhone(f.phone.value) {
      errors := errors.(phone := Some(PhoneMessage));
    }
    if f.postcode.Some? {
      RequiredPostcode(f.postcode.value);
    }
    if !ValidateRequired(Field(f.postcode)) || !ValidateUKPostcode(f.postcode.value) {
      errors := errors.(postcode := Some(PostcodeMessage));
    }
    if HasEmergencyPhone(f) {
      ValidateUKPhoneShape(f.emergency_contact.value.phone.value);
      if !ValidateUKPhone(f.emergency_contact.value.phone.value) {
        errors := errors.(emergency_contact_phone := Some(EmergencyPhoneMessage));
      }
    }
    StudentErrorsEmpty(errors);
    isValid := errors.KeyCount() == 0;
  }
}
