/**
  The student picker of the lesson dialog (src/components/admin/LessonPlanner/StudentDropdown.jsx):
  the selected student and the search, which looks at names and postcodes only.
*/
module StudentDropdown {
  import opened Wrappers
  import opened Lists
  import opened StudentsTab

  /** `students.find(s => s.id === value)` */
  function SelectedStudent(students: seq<Student>, value: string): (r: Option<Student>)
    ensures r.Some? ==> r.value in students && r.value.id == value
    ensures r.None? <==> forall s :: s in students ==> s.id != value
  {
    Find(students, (s: Student) => s.id == value)
  }

  /** With several students under one id, the first one in the list is selected. */
  lemma SelectedIsFirst(students: seq<Student>, value: string) returns (i: nat)
    requires SelectedStudent(students, value).Some?
    ensures i < |students| && students[i] == SelectedStudent(students, value).value
    ensures forall j :: 0 <= j < i ==> students[j].id != value
  {
    i := FindFirst(students, (s: Student) => s.id == value);
  }

  /** The query appears, ignoring case, in the name or the postcode; email and phone are not searched. */
  predicate NameOrPostcodeMatches(query: string, s: Student)
  {
    Mentions(s.name, query) || Mentions(s.postcode, query)
  }

  /** `filteredStudents`: the whole list for an empty query, otherwise the matching students in order. */
  function DropdownStudents(students: seq<Student>, query: string): (r: seq<Student>)
    ensures query == "" ==> r == students
    ensures query != "" ==> forall s :: s in r <==> s in students && NameOrPostcodeMatches(query, s)
    ensures IsSubsequence(r, students)
  {
    if query == "" then
      FilterKeepsAll(students, s => true);
      FilterIsSubsequence(students, s => true);
      students
    else
      FilterIsSubsequence(students, s => NameOrPostcodeMatches(query, s));
      Filter(students, s => NameOrPostcodeMatches(query, s))
  }

  /**
    The picker's search is narrower than the student list's: what it shows is
    the list's search result further filtered by name and postcode.
  */
  lemma DropdownWithinTab(students: seq<Student>, query: string)
    requires query != ""
    ensures DropdownStudents(students, query) ==
            Filter(FilteredStudents(students, query), s => NameOrPostcodeMatches(query, s))
  {
    FilterNarrower(students, s => NameOrPostcodeMatches(query, s), s => Matches(query, s));
  }

  /** "No students found." is shown when a query is set and nothing matches. */
  predicate NoStudentsFound(filtered: seq<Student>, query: string)
  {
    filtered == [] && query != ""
  }

  /** The message appears exactly when a query is set and no student's name or postcode mentions it. */
  lemma NoStudentsFoundMeaning(students: seq<Student>, query: string)
    ensures NoStudentsFound(DropdownStudents(students, query), query) <==>
            query != "" && forall s :: s in students ==> !NameOrPostcodeMatches(query, s)
  {
    var r := DropdownStudents(students, query);
    if query != "" && r != [] {
      assert r[0] in r;
    }
  }
}
