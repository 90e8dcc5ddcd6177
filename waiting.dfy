/** The "Waiting" side of the queue display: for each faculty row, the
    students queued under that faculty whose ticket is past the one being
    served, in ticket order, and the text they are shown as. */
module Waiting {
  import opened Wrappers
  import opened JsString
  import opened StableSort
  import opened Snapshot

  /** The filter condition: the document names the row's faculty, is not a
      faculty document, and its parsed ticket is greater than the parsed
      `displayedTicket` (false whenever either side is `NaN`). */
  predicate IsWaitingFor(d: Doc, row: FacultyItem) {
    && d.faculty == Some(row.name)
    && !IsFaculty(d)
    && NumGreater(ParseIntField(d.userTicketNumber), ParseInt(row.displayedTicket))
  }

  function WaitingFilter(docs: seq<Doc>, row: FacultyItem): seq<Doc> {
    Filter(docs, d => IsWaitingFor(d, row))
  }

  /** The sort key `parseInt(userTicketNumber) || 0`. */
  function TicketKey(d: Doc): int {
    OrZero(ParseIntField(d.userTicketNumber))
  }

  /** `waitingStudents`: the filtered documents sorted by ticket. */
  function WaitingStudents(docs: seq<Doc>, row: FacultyItem): seq<Doc> {
    SortBy(WaitingFilter(docs, row), TicketKey, IntLe)
  }

  /** Soundness and completeness: a document is in the waiting list exactly
      when it is in the snapshot and satisfies the filter, and it occurs
      there as often as in the snapshot. */
  lemma WaitingStudentsExact(docs: seq<Doc>, row: FacultyItem, d: Doc)
    ensures d in WaitingStudents(docs, row) <==> d in docs && IsWaitingFor(d, row)
    ensures multiset(WaitingStudents(docs, row))[d] == if IsWaitingFor(d, row) then multiset(docs)[d] else 0
  {
    FilterMultiset(docs, d => IsWaitingFor(d, row), d);
    assert d in WaitingStudents(docs, row) <==> d in multiset(WaitingStudents(docs, row));
    assert d in docs <==> d in multiset(docs);
  }

  /** A `displayedTicket` with no leading digits parses to `NaN`, every
      comparison with it is false, and nobody is waiting. */
  lemma NoWaitingWhenTicketIsNaN(docs: seq<Doc>, row: FacultyItem)
    requires ParseInt(row.displayedTicket).None?
    ensures WaitingStudents(docs, row) == []
  {
    var w := WaitingStudents(docs, row);
    if w != [] {
      WaitingStudentsExact(docs, row, w[0]);
      assert false;
    }
  }

  /** Every waiting student has a numeric ticket past the served one, and
      the tickets ascend along the list. */
  lemma {:induction false} WaitingStudentsAscend(docs: seq<Doc>, row: FacultyItem)
    ensures var w := WaitingStudents(docs, row);
      && (forall i :: 0 <= i < |w| ==>
            ParseIntField(w[i].userTicketNumber).Some?
            && ParseInt(row.displayedTicket).Some?
            && ParseIntField(w[i].userTicketNumber).value > ParseInt(row.displayedTicket).value)
      && (forall i, j :: 0 <= i < j < |w| ==>
            ParseIntField(w[i].userTicketNumber).value <= ParseIntField(w[j].userTicketNumber).value)
  {
    var w := WaitingStudents(docs, row);
    forall i | 0 <= i < |w|
      ensures IsWaitingFor(w[i], row)
    {
      assert w[i] in w;
      WaitingStudentsExact(docs, row, w[i]);
    }
    IntLeTotalPreorder();
    SortBySorted(WaitingFilter(docs, row), TicketKey, IntLe);
    assert forall i, j :: 0 <= i < j < |w| ==> TicketKey(w[i]) <= TicketKey(w[j]);
  }

  /** The sort is stable: students with the same ticket value keep their
      relative order, which is their order in the snapshot. */
  lemma WaitingStudentsStable(docs: seq<Doc>, row: FacultyItem, k: int)
    ensures EquivPart(WaitingStudents(docs, row), TicketKey, IntLe, k)
         == EquivPart(WaitingFilter(docs, row), TicketKey, IntLe, k)
  {
    IntLeTotalPreorder();
    SortByStable(WaitingFilter(docs, row), TicketKey, IntLe, k);
  }

  /** One waiting entry: `program-` followed by the ticket padded to four
      digits. A missing program renders as nothing. */
  function EntryLabel(d: Doc): string {
    OrEmpty(d.program) + "-" + PadStart(ToJsString(d.userTicketNumber), 4, '0')
  }

  /** A waiting student's label is its program, a dash, and its ticket
      padded with zeros to at least four characters; the ticket keeps its
      parsed value through the padding. */
  lemma EntryLabelShape(d: Doc)
    requires d.userTicketNumber.Some? && ParseInt(d.userTicketNumber.value).Some?
    ensures var r, p, t := EntryLabel(d), OrEmpty(d.program), d.userTicketNumber.value;
      && |r| == |p| + 1 + (if |t| >= 4 then |t| else 4)
      && r[..|p|] == p
      && r[|p|] == '-'
      && r[|r| - |t|..] == t
      && (forall i :: |p| < i < |r| - |t| ==> r[i] == '0')
      && ParseInt(r[|p| + 1..]) == ParseInt(t)
  {
    var r, p, t := EntryLabel(d), OrEmpty(d.program), d.userTicketNumber.value;
    var pad := PadStart(t, 4, '0');
    assert r == p + "-" + pad;
    assert r[|p| + 1..] == pad;
    assert r[|r| - |t|..] == pad[|pad| - |t|..];
    forall i | |p| < i < |r| - |t| ensures r[i] == '0' {
      assert r[i] == pad[i - |p| - 1];
    }
    PadStartKeepsParsedValue(t, 4);
  }

  function Labels(students: seq<Doc>): (r: seq<string>)
    ensures |r| == |students|
    ensures forall i :: 0 <= i < |r| ==> r[i] == EntryLabel(students[i])
  {
    seq(|students|, i requires 0 <= i < |students| => EntryLabel(students[i]))
  }

  /** What follows entry `index` of `count`: `", "` unless it is the last. */
  function Separator(index: nat, count: nat): string {
    if index < count - 1 then ", " else ""
  }

  /** The `<Text>` pieces rendered by `waitingStudents.map((student, index) => ...)`. */
  function Pieces(labels: seq<string>): (r: seq<string>)
    ensures |r| == |labels|
  {
    seq(|labels|, i requires 0 <= i < |labels| => labels[i] + Separator(i, |labels|))
  }

  /** The text the pieces make side by side. */
  function Concat(pieces: seq<string>): string {
    if pieces == [] then "" else pieces[0] + Concat(pieces[1..])
  }

  /** Reference definition: the labels joined with `", "`. */
  function Join(labels: seq<string>): string {
    if labels == [] then ""
    else if |labels| == 1 then labels[0]
    else labels[0] + ", " + Join(labels[1..])
  }

  /** The rendered waiting text of a faculty row. */
  function WaitingText(docs: seq<Doc>, row: FacultyItem): string {
    Concat(Pieces(Labels(WaitingStudents(docs, row))))
  }

  /** `", "` follows every piece but the last, and the last is the bare label. */
  lemma SeparatorPlacement(labels: seq<string>)
    ensures forall i :: 0 <= i < |labels| - 1 ==> Pieces(labels)[i] == labels[i] + ", "
    ensures labels != [] ==> Pieces(labels)[|labels| - 1] == labels[|labels| - 1]
  {
  }

  /** Rendering entries with the index-based separator is joining them with
      `", "`. */
  lemma {:induction false} PiecesJoin(labels: seq<string>)
    ensures Concat(Pieces(labels)) == Join(labels)
  {
    if |labels| == 1 {
      assert Pieces(labels)[0] == labels[0] + "" == labels[0];
      assert Pieces(labels) == [labels[0]];
      assert Concat(Pieces(labels)) == labels[0] + Concat([]);
    } else if |labels| > 1 {
      var rest := labels[1..];
      assert Pieces(labels)[1..] == Pieces(rest) by {
        forall i | 0 <= i < |rest| ensures Pieces(labels)[1..][i] == Pieces(rest)[i] {
          assert Separator(i + 1, |labels|) == Separator(i, |rest|);
        }
      }
      PiecesJoin(rest);
    }
  }

  /** The waiting text is the waiting students' labels joined with `", "`. */
  lemma WaitingTextIsJoin(docs: seq<Doc>, row: FacultyItem)
    ensures WaitingText(docs, row) == Join(Labels(WaitingStudents(docs, row)))
  {
    PiecesJoin(Labels(WaitingStudents(docs, row)));
  }
}
