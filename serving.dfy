/** The "Now Serving" side of the queue display: the snapshot callback that
    turns the flat document list into one `FacultyItem` per faculty
    document, sorted by name, and the ticket text shown for each. */
module Serving {
  import opened Wrappers
  import opened JsString
  import opened StableSort
  import opened Snapshot

  /** `(doc.data().fullName || '')`, the key faculty documents are sorted by. */
  function NameKey(d: Doc): string {
    OrEmpty(d.fullName)
  }

  /** The faculty documents sorted by name with the comparator behind
      `localeCompare`, given as the preorder `le`. */
  function SortedFacultyDocs(docs: seq<Doc>, le: (string, string) -> bool): seq<Doc> {
    SortBy(Filter(docs, IsFaculty), NameKey, le)
  }

  /** The sorted faculty documents are exactly the faculty documents of the
      snapshot, each as often as it occurs there. */
  lemma SortedFacultyDocsArePermutation(docs: seq<Doc>, le: (string, string) -> bool)
    ensures |SortedFacultyDocs(docs, le)| == |Filter(docs, IsFaculty)|
    ensures forall d :: multiset(SortedFacultyDocs(docs, le))[d] == if IsFaculty(d) then multiset(docs)[d] else 0
  {
    forall d ensures multiset(SortedFacultyDocs(docs, le))[d] == if IsFaculty(d) then multiset(docs)[d] else 0 {
      FilterMultiset(docs, IsFaculty, d);
    }
  }

  /** The sorted faculty documents are in non-decreasing name order. */
  lemma SortedFacultyDocsSorted(docs: seq<Doc>, le: (string, string) -> bool)
    requires TotalPreorder(le)
    ensures var fs := SortedFacultyDocs(docs, le);
      forall i, j :: 0 <= i < j < |fs| ==> le(NameKey(fs[i]), NameKey(fs[j]))
  {
    SortBySorted(Filter(docs, IsFaculty), NameKey, le);
  }

  /** Faculty documents whose names compare equal keep their snapshot order. */
  lemma SortedFacultyDocsStable(docs: seq<Doc>, le: (string, string) -> bool, k: string)
    requires TotalPreorder(le)
    ensures EquivPart(SortedFacultyDocs(docs, le), NameKey, le, k)
         == EquivPart(Filter(docs, IsFaculty), NameKey, le, k)
  {
    SortByStable(Filter(docs, IsFaculty), NameKey, le, k);
  }

  /** The condition of the `find` for the student being served: its ticket
      field equals the faculty's raw `displayedTicket` and it is not a faculty
      document. Both sides are raw fields, so a missing ticket equals a missing ticket. */
  predicate IsServedStudent(d: Doc, ticket: Option<string>) {
    d.userTicketNumber == ticket && !IsFaculty(d)
  }

  /** The position of the first document satisfying `IsServedStudent`. */
  function FirstServedIndex(docs: seq<Doc>, ticket: Option<string>): (r: Option<nat>)
    ensures r.Some? ==> r.value < |docs| && IsServedStudent(docs[r.value], ticket)
    ensures r.Some? ==> forall j :: 0 <= j < r.value ==> !IsServedStudent(docs[j], ticket)
    ensures r.None? ==> forall j :: 0 <= j < |docs| ==> !IsServedStudent(docs[j], ticket)
  {
    if docs == [] then None
    else if IsServedStudent(docs[0], ticket) then Some(0)
    else
      match FirstServedIndex(docs[1..], ticket)
      case None => None
      case Some(i) => Some(i + 1)
  }

  /** `allDocs.find(...)` for the student being served: the first matching
      document of the snapshot, or `undefined`. */
  function FindServedStudent(docs: seq<Doc>, ticket: Option<string>): (r: Option<Doc>)
    ensures r.None? <==> forall d :: d in docs ==> !IsServedStudent(d, ticket)
    ensures r.Some? ==> r.value in docs && IsServedStudent(r.value, ticket)
  {
    match FirstServedIndex(docs, ticket)
    case None => None
    case Some(i) => Some(docs[i])
  }

  /** The record pushed for faculty document `f`, missing fields replaced by
      `''` or `0`. */
  function MakeRow(docs: seq<Doc>, f: Doc): (row: FacultyItem)
    ensures row.id == f.id
    ensures row.name == (if f.fullName.Some? then f.fullName.value else "")
    ensures row.displayedTicket == (if f.displayedTicket.Some? then f.displayedTicket.value else "")
    ensures row.userType == (if f.userType.Some? then f.userType.value else "")
    ensures row.numOnQueue == (if f.numOnQueue.Some? then f.numOnQueue.value else 0)
  {
    var student := FindServedStudent(docs, f.displayedTicket);
    FacultyItem(
      f.id,
      OrEmpty(f.fullName),
      OrEmpty(f.displayedTicket),
      OrEmpty(f.userType),
      f.numOnQueue.GetOr(0),
      match student
      case None => ""
      case Some(s) => OrEmpty(s.program))
  }

  /** The row's program is that of the first non-faculty document, in
      snapshot order, whose ticket equals the faculty's `displayedTicket`,
      and `''` when there is none. */
  lemma ServedProgramIsFirstMatch(docs: seq<Doc>, f: Doc, i: nat)
    requires i < |docs| && IsServedStudent(docs[i], f.displayedTicket)
    requires forall j :: 0 <= j < i ==> !IsServedStudent(docs[j], f.displayedTicket)
    ensures MakeRow(docs, f).currentStudentProgram == OrEmpty(docs[i].program)
  {
  }

  lemma NoServedStudentNoProgram(docs: seq<Doc>, f: Doc)
    requires forall d :: d in docs ==> !IsServedStudent(d, f.displayedTicket)
    ensures MakeRow(docs, f).currentStudentProgram == ""
  {
  }

  /** The rows the snapshot callback stores with `setFacultyData`. */
  function ServingRows(docs: seq<Doc>, le: (string, string) -> bool): (rows: seq<FacultyItem>)
    ensures |rows| == |SortedFacultyDocs(docs, le)|
  {
    var fs := SortedFacultyDocs(docs, le);
    seq(|fs|, i requires 0 <= i < |fs| => MakeRow(docs, fs[i]))
  }

  /** The snapshot callback: filter and sort the faculty documents, then
      push one record per faculty document, in that order. */
  method OnSnapshot(docs: seq<Doc>, le: (string, string) -> bool) returns (faculty: seq<FacultyItem>)
    ensures faculty == ServingRows(docs, le)
    ensures |faculty| == |Filter(docs, IsFaculty)|
    ensures TotalPreorder(le) ==> NamesSorted(faculty, le)
    ensures forall i :: 0 <= i < |faculty| ==> faculty[i].userType == FACULTY
  {
    var facultyDocs := SortBy(Filter(docs, IsFaculty), NameKey, le);
    ghost var rows := ServingRows(docs, le);
    faculty := [];
    var i := 0;
    while i < |facultyDocs|
      invariant 0 <= i <= |facultyDocs|
      invariant faculty == rows[..i]
    {
      faculty := faculty + [MakeRow(docs, facultyDocs[i])];
      i := i + 1;
    }
    assert faculty == rows;
    ServingRowsAreFaculty(docs, le);
    if TotalPreorder(le) {
      ServingRowsSortedByName(docs, le);
    }
  }

  /** Every row is built from a faculty document, so its `userType` is `FACULTY`. */
  lemma ServingRowsAreFaculty(docs: seq<Doc>, le: (string, string) -> bool)
    ensures var rows := ServingRows(docs, le);
      forall i :: 0 <= i < |rows| ==> rows[i].userType == FACULTY
  {
    var rows := ServingRows(docs, le);
    forall i | 0 <= i < |rows| ensures rows[i].userType == FACULTY {
      FacultyDocOfRow(docs, le, i);
    }
  }

  /** Every row's name is `le` every later row's name. */
  ghost predicate NamesSorted(rows: seq<FacultyItem>, le: (string, string) -> bool) {
    forall i, j :: 0 <= i < j < |rows| ==> le(rows[i].name, rows[j].name)
  }

  /** The rows are in non-decreasing order of their names. */
  lemma ServingRowsSortedByName(docs: seq<Doc>, le: (string, string) -> bool)
    requires TotalPreorder(le)
    ensures NamesSorted(ServingRows(docs, le), le)
  {
    var fs := SortedFacultyDocs(docs, le);
    var rows := ServingRows(docs, le);
    SortedFacultyDocsSorted(docs, le);
    forall i, j | 0 <= i < j < |rows| ensures le(rows[i].name, rows[j].name) {
      assert rows[i].name == NameKey(fs[i]) && rows[j].name == NameKey(fs[j]);
    }
  }

  /** The row built from a faculty document of the snapshot is among the rows. */
  lemma RowOfFacultyDoc(docs: seq<Doc>, le: (string, string) -> bool, d: Doc)
    requires d in docs && IsFaculty(d)
    ensures MakeRow(docs, d) in ServingRows(docs, le)
  {
    var fs := SortedFacultyDocs(docs, le);
    FilterMultiset(docs, IsFaculty, d);
    assert d in multiset(docs);
    assert d in multiset(fs);
    var i :| 0 <= i < |fs| && fs[i] == d;
    assert ServingRows(docs, le)[i] == MakeRow(docs, d);
  }

  /** Each row is built from a faculty document of the snapshot. */
  lemma FacultyDocOfRow(docs: seq<Doc>, le: (string, string) -> bool, i: nat)
    requires i < |ServingRows(docs, le)|
    ensures var f := SortedFacultyDocs(docs, le)[i];
      f in docs && IsFaculty(f) && ServingRows(docs, le)[i] == MakeRow(docs, f)
  {
    var fs := SortedFacultyDocs(docs, le);
    assert fs[i] in multiset(fs);
    FilterMultiset(docs, IsFaculty, fs[i]);
    assert fs[i] in multiset(docs);
  }

  /** One row per faculty document and nothing else: every faculty document
      of the snapshot has its row, and every row comes from one. */
  lemma ServingRowsMatchFacultyDocs(docs: seq<Doc>, le: (string, string) -> bool)
    ensures forall d :: d in docs && IsFaculty(d) ==> MakeRow(docs, d) in ServingRows(docs, le)
    ensures forall row :: row in ServingRows(docs, le) ==>
              exists d :: d in docs && IsFaculty(d) && row == MakeRow(docs, d)
  {
    forall d | d in docs && IsFaculty(d) ensures MakeRow(docs, d) in ServingRows(docs, le) {
      RowOfFacultyDoc(docs, le, d);
    }
    forall row | row in ServingRows(docs, le)
      ensures exists d :: d in docs && IsFaculty(d) && row == MakeRow(docs, d)
    {
      var i :| 0 <= i < |ServingRows(docs, le)| && ServingRows(docs, le)[i] == row;
      FacultyDocOfRow(docs, le, i);
    }
  }

  /** The ticket text of a row: `program-` when the row has a program, then
      the ticket padded to four digits with zeros. */
  function ServingTicketText(row: FacultyItem): (r: string)
    ensures row.currentStudentProgram == "" ==> r == PadStart(row.displayedTicket, 4, '0')
    ensures row.currentStudentProgram != "" ==>
      var p, pad := row.currentStudentProgram, PadStart(row.displayedTicket, 4, '0');
      && |r| == |p| + 1 + |pad|
      && r[..|p|] == p && r[|p|] == '-' && r[|p| + 1..] == pad
  {
    (if row.currentStudentProgram != "" then row.currentStudentProgram + "-" else "")
      + PadStart(row.displayedTicket, 4, '0')
  }

  /** A faculty document without `displayedTicket` is still shown; its
      ticket reads `0000`, and it is matched against students that have no
      ticket number either. */
  lemma MissingTicketShownAsZeros(docs: seq<Doc>, f: Doc)
    requires f.displayedTicket.None?
    ensures var row := MakeRow(docs, f);
      && row.displayedTicket == ""
      && ServingTicketText(row)[|ServingTicketText(row)| - 4..] == "0000"
      && (forall d :: d in docs && !IsFaculty(d) && d.userTicketNumber.None? ==>
            FindServedStudent(docs, f.displayedTicket).Some?)
  {
    PadStartOfEmpty();
  }
}
