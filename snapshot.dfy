/** The documents of the `student` collection as the snapshot delivers them
    (faculty and student documents mixed), and the record the screen keeps
    per faculty member. */
module Snapshot {
  import opened Wrappers

  /** One document: its id and the fields of `doc.data()` the screen reads.
      A field the document does not have is `None` (`undefined`). */
  datatype Doc = Doc(
    id: string,
    fullName: Option<string>,
    userType: Option<string>,
    displayedTicket: Option<string>,
    numOnQueue: Option<int>,
    userTicketNumber: Option<string>,
    program: Option<string>,
    faculty: Option<string>)

  /** The `FacultyItem` record built for each faculty document. */
  datatype FacultyItem = FacultyItem(
    id: string,
    name: string,
    displayedTicket: string,
    userType: string,
    numOnQueue: int,
    currentStudentProgram: string)

  const FACULTY: string := "FACULTY"

  /** `doc.data().userType === 'FACULTY'`. */
  predicate IsFaculty(d: Doc) {
    d.userType == Some(FACULTY)
  }

  /** `arr.filter(p)`: the elements satisfying `p`, in their order. */
  function Filter<T>(s: seq<T>, p: T -> bool): (r: seq<T>)
    ensures |r| <= |s|
  {
    if s == [] then []
    else (if p(s[0]) then [s[0]] else []) + Filter(s[1..], p)
  }

  /** The filter keeps every element satisfying `p` as often as it occurs,
      and no other element. */
  lemma {:induction false} FilterMultiset<T>(s: seq<T>, p: T -> bool, x: T)
    ensures multiset(Filter(s, p))[x] == if p(x) then multiset(s)[x] else 0
  {
    if s != [] {
      assert s == [s[0]] + s[1..];
      FilterMultiset(s[1..], p, x);
    }
  }

  /** Soundness and completeness of the filter. */
  lemma FilterMembers<T>(s: seq<T>, p: T -> bool, x: T)
    ensures x in Filter(s, p) <==> x in s && p(x)
  {
    FilterMultiset(s, p, x);
    assert x in Filter(s, p) <==> x in multiset(Filter(s, p));
    assert x in s <==> x in multiset(s);
  }

  lemma {:induction false} FilterAppend<T>(a: seq<T>, b: seq<T>, p: T -> bool)
    ensures Filter(a + b, p) == Filter(a, p) + Filter(b, p)
  {
    if a != [] {
      assert (a + b)[1..] == a[1..] + b;
      FilterAppend(a[1..], b, p);
    } else {
      assert a + b == b;
    }
  }

  lemma {:induction false} FilterKeepsAll<T>(s: seq<T>, p: T -> bool)
    requires forall i :: 0 <= i < |s| ==> p(s[i])
    ensures Filter(s, p) == s
  {
    if s != [] {
      FilterKeepsAll(s[1..], p);
    }
  }

  lemma {:induction false} FilterDropsAll<T>(s: seq<T>, p: T -> bool)
    requires forall i :: 0 <= i < |s| ==> !p(s[i])
    ensures Filter(s, p) == []
  {
    if s != [] {
      FilterDropsAll(s[1..], p);
    }
  }

  /** `idx` picks the elements of `r` out of `s` at strictly increasing
      positions: `r` is a subsequence of `s`. */
  ghost predicate Embeds<T>(idx: seq<nat>, r: seq<T>, s: seq<T>) {
    && |idx| == |r|
    && (forall i :: 0 <= i < |idx| ==> idx[i] < |s| && s[idx[i]] == r[i])
    && (forall i, j :: 0 <= i < j < |idx| ==> idx[i] < idx[j])
  }

  /** The filter keeps the relative order of what it keeps. */
  lemma {:induction false} FilterIsSubsequence<T>(s: seq<T>, p: T -> bool) returns (idx: seq<nat>)
    ensures Embeds(idx, Filter(s, p), s)
  {
    if s == [] {
      idx := [];
    } else {
      var rest := FilterIsSubsequence(s[1..], p);
      var r := Filter(s[1..], p);
      var shifted := Shift(rest);
      EmbedsShift(rest, r, s);
      if p(s[0]) {
        idx := [0] + shifted;
        assert Filter(s, p) == [s[0]] + r;
        EmbedsCons(shifted, r, s);
      } else {
        idx := shifted;
        assert Filter(s, p) == r;
      }
    }
  }

  function Shift(idx: seq<nat>): (r: seq<nat>)
    ensures |r| == |idx| && forall i :: 0 <= i < |idx| ==> r[i] == idx[i] + 1
  {
    seq(|idx|, i requires 0 <= i < |idx| => idx[i] + 1)
  }

  lemma EmbedsShift<T>(idx: seq<nat>, r: seq<T>, s: seq<T>)
    requires s != [] && Embeds(idx, r, s[1..])
    ensures Embeds(Shift(idx), r, s)
  {
    var sh := Shift(idx);
    forall i | 0 <= i < |sh| ensures sh[i] < |s| && s[sh[i]] == r[i] {
      assert s[1..][idx[i]] == r[i];
    }
  }

  lemma EmbedsCons<T>(idx: seq<nat>, r: seq<T>, s: seq<T>)
    requires s != [] && Embeds(idx, r, s)
    requires forall i :: 0 <= i < |idx| ==> idx[i] > 0
    ensures Embeds([0] + idx, [s[0]] + r, s)
  {
  }
}
