/** The queue display's mock data, evaluated by lemmas: Dr. Smith
    serves ticket 0023 and four of their students hold 0024 to 0027. */
module Fixture {
  import opened Wrappers
  import opened JsString
  import opened StableSort
  import opened Snapshot
  import opened Serving
  import opened Waiting

  function Student(id: string, faculty: string, ticket: string, program: string): Doc {
    Doc(id, None, Some("STUDENT"), None, None, Some(ticket), Some(program), Some(faculty))
  }

  /** Dr. Smith's students in the mock snapshot. */
  function SmithStudents(): seq<Doc> {
    [ Student("s1", "Dr. Smith", "0024", "BSCS"),
      Student("s2", "Dr. Smith", "0025", "BSCS"),
      Student("s3", "Dr. Smith", "0026", "BSIT"),
      Student("s4", "Dr. Smith", "0027", "BSCS") ]
  }

  /** The other students of the mock snapshot. */
  function OtherStudents(): seq<Doc> {
    [ Student("s5", "Prof. Johnson", "0046", "BSIT"),
      Student("s6", "Prof. Johnson", "0047", "BSIT"),
      Student("s7", "Dr. Williams", "0068", "BSECE"),
      Student("s8", "Dr. Williams", "0069", "BSECE"),
      Student("s9", "Dr. Williams", "0070", "BSECE"),
      Student("s10", "Dr. Williams", "0071", "BSECE") ]
  }

  /** The student documents of the mock snapshot (app/mockData.ts). */
  function MockAllDocs(): seq<Doc> {
    SmithStudents() + OtherStudents()
  }

  /** The first mock faculty record. */
  function DrSmith(): FacultyItem {
    FacultyItem("1", "Dr. Smith", "0023", FACULTY, 5, "BSCS")
  }

  /** The value of a four-digit ticket. */
  lemma FourDigitTicket(s: string)
    requires |s| == 4 && AllDigits(s)
    ensures ParseInt(s) == Some(DigitValue(s[0]) * 1000 + DigitValue(s[1]) * 100 + DigitValue(s[2]) * 10 + DigitValue(s[3]))
  {
    LeadingDigitsOfDigits(s, "");
    assert s + "" == s;
    var s3 := s[..3];
    var s2 := s3[..2];
    var s1 := s2[..1];
    assert s1[..0] == [];
    assert DigitsValue(s1) == DigitValue(s[0]);
    assert DigitsValue(s2) == DigitsValue(s1) * 10 + DigitValue(s[1]);
    assert DigitsValue(s3) == DigitsValue(s2) * 10 + DigitValue(s[2]);
    assert DigitsValue(s) == DigitsValue(s3) * 10 + DigitValue(s[3]);
  }

  lemma MockTickets()
    ensures ParseInt("0023") == Some(23)
    ensures ParseInt("0024") == Some(24)
    ensures ParseInt("0025") == Some(25)
    ensures ParseInt("0026") == Some(26)
    ensures ParseInt("0027") == Some(27)
  {
    FourDigitTicket("0023");
    FourDigitTicket("0024");
    FourDigitTicket("0025");
    FourDigitTicket("0026");
    FourDigitTicket("0027");
  }

  lemma SmithStudentsWait()
    ensures forall i :: 0 <= i < |SmithStudents()| ==> IsWaitingFor(SmithStudents()[i], DrSmith())
  {
    MockTickets();
  }

  lemma OtherStudentsDoNotWait()
    ensures forall i :: 0 <= i < |OtherStudents()| ==> !IsWaitingFor(OtherStudents()[i], DrSmith())
  {
    var others := OtherStudents();
    forall i | 0 <= i < |others| ensures !IsWaitingFor(others[i], DrSmith()) {
      assert others[i].faculty != Some("Dr. Smith");
    }
  }

  /** Only Dr. Smith's own students pass the waiting filter. */
  lemma DrSmithFilter()
    ensures WaitingFilter(MockAllDocs(), DrSmith()) == SmithStudents()
  {
    var row := DrSmith();
    var p := d => IsWaitingFor(d, row);
    var smith, others := SmithStudents(), OtherStudents();
    SmithStudentsWait();
    OtherStudentsDoNotWait();
    FilterAppend(smith, others, p);
    FilterKeepsAll(smith, p);
    FilterDropsAll(others, p);
  }

  /** Dr. Smith's students already stand in ticket order. */
  lemma SmithStudentsSorted()
    ensures SortedBy(SmithStudents(), TicketKey, IntLe)
  {
    var smith := SmithStudents();
    MockTickets();
    assert TicketKey(smith[0]) == 24;
    assert TicketKey(smith[1]) == 25;
    assert TicketKey(smith[2]) == 26;
    assert TicketKey(smith[3]) == 27;
  }

  /** Dr. Smith's waiting list is the four students after ticket 0023, in
      ticket order. */
  lemma DrSmithWaiting()
    ensures WaitingStudents(MockAllDocs(), DrSmith()) == SmithStudents()
  {
    DrSmithFilter();
    SmithStudentsSorted();
    IntLeTotalPreorder();
    SortBySortedIsIdentity(SmithStudents(), TicketKey, IntLe);
  }

  lemma StudentLabel(id: string, faculty: string, ticket: string, program: string)
    requires |ticket| == 4
    ensures EntryLabel(Student(id, faculty, ticket, program)) == program + "-" + ticket
  {
    PadStartLongUnchanged(ticket, 4, '0');
  }

  lemma LabelsOfFour(a: Doc, b: Doc, c: Doc, d: Doc)
    ensures Labels([a, b, c, d]) == [EntryLabel(a), EntryLabel(b), EntryLabel(c), EntryLabel(d)]
  {
  }

  lemma SmithLabels()
    ensures Labels(SmithStudents()) == ["BSCS" + "-" + "0024", "BSCS" + "-" + "0025", "BSIT" + "-" + "0026", "BSCS" + "-" + "0027"]
  {
    var smith := SmithStudents();
    LabelsOfFour(smith[0], smith[1], smith[2], smith[3]);
    assert smith == [smith[0], smith[1], smith[2], smith[3]];
    StudentLabel("s1", "Dr. Smith", "0024", "BSCS");
    StudentLabel("s2", "Dr. Smith", "0025", "BSCS");
    StudentLabel("s3", "Dr. Smith", "0026", "BSIT");
    StudentLabel("s4", "Dr. Smith", "0027", "BSCS");
  }

  lemma JoinFour(a: string, b: string, c: string, d: string)
    ensures Join([a, b, c, d]) == a + ", " + (b + ", " + (c + ", " + d))
  {
    assert [a, b, c, d][1..] == [b, c, d];
    assert [b, c, d][1..] == [c, d];
    assert [c, d][1..] == [d];
    assert Join([d]) == d;
    assert Join([c, d]) == c + ", " + d;
    assert Join([b, c, d]) == b + ", " + (c + ", " + d);
  }

  /** Dr. Smith's waiting text. */
  lemma DrSmithWaitingText()
    ensures WaitingText(MockAllDocs(), DrSmith()) == "BSCS-0024, BSCS-0025, BSIT-0026, BSCS-0027"
  {
    var labels := ["BSCS" + "-" + "0024", "BSCS" + "-" + "0025", "BSIT" + "-" + "0026", "BSCS" + "-" + "0027"];
    DrSmithWaiting();
    SmithLabels();
    WaitingTextIsJoin(MockAllDocs(), DrSmith());
    assert WaitingText(MockAllDocs(), DrSmith()) == Join(labels);
    JoinFour(labels[0], labels[1], labels[2], labels[3]);
    assert labels == [labels[0], labels[1], labels[2], labels[3]];
    LiteralText();
  }

  lemma LiteralText()
    ensures ("BSCS" + "-" + "0024") + ", " + (("BSCS" + "-" + "0025") + ", " + (("BSIT" + "-" + "0026") + ", " + ("BSCS" + "-" + "0027")))
         == "BSCS-0024, BSCS-0025, BSIT-0026, BSCS-0027"
  {
  }

  /** The served-student lookup matches on the ticket alone: when another
      faculty's student holding the same ticket comes first in the
      snapshot, that student's program is shown. */
  lemma ServedLookupIgnoresFaculty()
    ensures var smith := Doc("f1", Some("Dr. Smith"), Some(FACULTY), Some("0023"), None, None, None, None);
      var theirs := Student("s1", "Dr. Smith", "0023", "BSCS");
      var other := Student("s9", "Dr. Williams", "0023", "BSECE");
      MakeRow([smith, other, theirs], smith).currentStudentProgram == "BSECE"
  {
    var smith := Doc("f1", Some("Dr. Smith"), Some(FACULTY), Some("0023"), None, None, None, None);
    var other := Student("s9", "Dr. Williams", "0023", "BSECE");
    var theirs := Student("s1", "Dr. Smith", "0023", "BSCS");
    ServedProgramIsFirstMatch([smith, other, theirs], smith, 1);
  }

  /** Dr. Smith's ticket reads `BSCS-0023`. */
  lemma DrSmithServingText()
    ensures ServingTicketText(DrSmith()) == "BSCS-0023"
  {
  }
}
