/**
  The search over the student list (src/components/admin/Students/StudentsTab.jsx):
  a case-insensitive substring match on name, email, phone and postcode,
  and the count label and empty-table message above and in the table.
*/
module StudentsTab {
  import opened Wrappers
  import opened Text
  import opened Lists

  /** A stored student, with the fields the searches read. */
  datatype Student = Student(id: string, name: string, email: string, phone: string, postcode: string)

  /** `field.toLowerCase().includes(query.toLowerCase())` */
  predicate Mentions(field: string, query: string)
  {
    Contains(ToLower(field), ToLower(query))
  }

  /** The query appears, ignoring case, in one of the four searched fields. */
  predicate Matches(query: string, s: Student)
  {
    Mentions(s.name, query) || Mentions(s.email, query) || Mentions(s.phone, query) || Mentions(s.postcode, query)
  }

  /** `filteredStudents`: the matching students, in the order of the list. */
  function FilteredStudents(students: seq<Student>, query: string): (r: seq<Student>)
    ensures forall s :: s in r <==> s in students && Matches(query, s)
    ensures IsSubsequence(r, students)
  {
    FilterIsSubsequence(students, s => Matches(query, s));
    Filter(students, s => Matches(query, s))
  }

  /** Every field mentions the empty query, so an empty search shows every student. */
  lemma EmptyQueryKeepsAll(students: seq<Student>)
    ensures FilteredStudents(students, "") == students
  {
    forall s | s in students
      ensures Matches("", s)
    {
      ContainsEmpty(ToLower(s.name));
      assert ToLower("") == "";
    }
    FilterKeepsAll(students, s => Matches("", s));
  }

  /**
    How a reader takes the label apart: the numeral before the first space is
    the number shown; then either nothing follows the space, or `of ` and a
    numeral that is the total.
  */
  predicate ReadsAs(text: string, shown: nat, total: Option<nat>)
  {
    var k := IndexOf(text, ' ');
    k < |text| && AllDigits(text[..k]) && DigitsValue(text[..k]) == shown &&
    match total
    case None => |text| == k + 1
    case Some(n) => k + 4 < |text| && text[k + 1..k + 4] == "of " && AllDigits(text[k + 4..]) && DigitsValue(text[k + 4..]) == n
  }

  /** A numeral, a space and the rest: the first space is the one after the numeral. */
  lemma NumeralThenSpace(count: string, rest: string)
    requires AllDigits(count)
    ensures var text := count + " " + rest;
      IndexOf(text, ' ') == |count| && text[..|count|] == count && text[|count| + 1..] == rest
  {
    assert ' ' !in count;
    IndexOfAfter(count, ' ', rest);
  }

  /** The label with and without the total reads back as the numbers written into it. */
  lemma LabelReadsBack(shown: nat, total: nat)
    ensures ReadsAs(NatToString(shown) + " " + "", shown, None)
    ensures ReadsAs(NatToString(shown) + " " + ("of " + NatToString(total)), shown, Some(total))
  {
    hide NatToString, DigitsValue, IndexOf;
    NatToStringValue(shown);
    NatToStringValue(total);
    NumeralThenSpace(NatToString(shown), "");
    var rest := "of " + NatToString(total);
    NumeralThenSpace(NatToString(shown), rest);
    assert rest[..3] == "of " && rest[3..] == NatToString(total);
  }

  /** The label above the table: the number shown, then `of N` while a query is set. */
  function CountLabel(shown: nat, total: nat, query: string): (text: string)
    ensures ReadsAs(text, shown, if query != "" then Some(total) else None)
  {
    hide ReadsAs, NatToString;
    LabelReadsBack(shown, total);
    NatToString(shown) + " " + (if query != "" then "of " + NatToString(total) else "")
  }

  const NoMatchMessage := "No students found matching your search."
  const NoStudentsMessage := "No students yet. Add your first student!"

  /** The row shown in an empty table; `None` when the table has rows. */
  function EmptyTableMessage(filtered: seq<Student>, query: string): (m: Option<string>)
    ensures m.Some? <==> filtered == []
    ensures m.Some? ==> (m.value == NoMatchMessage <==> query != "")
  {
    if filtered != [] then None
    else if query != "" then Some(NoMatchMessage)
    else Some(NoStudentsMessage)
  }

  /** Without a query, the table says there are no students yet exactly when there are none. */
  lemma NoStudentsYet(students: seq<Student>)
    ensures EmptyTableMessage(FilteredStudents(students, ""), "") == Some(NoStudentsMessage) <==> students == []
  {
    EmptyQueryKeepsAll(students);
  }
}
