# Queue display projection

A model of the queue board's "Now Serving" / "Waiting" screen
(`app/index.tsx`). The screen gets a snapshot of one realtime collection
that holds faculty and student documents together and derives two views
from it:

- **Now Serving.** The snapshot callback keeps the documents whose
  `userType` is `FACULTY` and sorts them by `fullName || ''` with
  `localeCompare`. It then walks them and pushes one `FacultyItem` per
  faculty document, filling missing fields with `''` or `0`. Each item's
  `currentStudentProgram` is the `program` of the first non-faculty
  document whose `userTicketNumber` equals the faculty's `displayedTicket`.
  A row shows `program-` (only when there is a program) and then the
  ticket, zero-padded to four characters.
- **Waiting.** For each faculty row, the screen keeps the non-faculty
  documents whose `faculty` is the row's name and whose `parseInt`-ed
  ticket is greater than the parsed `displayedTicket`. It sorts them by
  `parseInt(ticket) || 0` and renders each as `program-PPPP`, with `", "`
  after every entry except the last.

Modules, one file each:

- `Wrappers` (`wrappers.dfy`): `Option`.
- `JsString` (`js_string.dfy`): the JavaScript primitives used. These are
  `x || ''`, `n || 0`, `String(x)`, `padStart` and `parseInt`; `NaN` is
  modelled as `None`, and comparisons with `NaN` are false.
- `StableSort` (`stable_sort.dfy`): `Array.prototype.sort` with a
  consistent comparator. It is stable (ECMAScript 2019 and later) and is
  modelled as a stable insertion sort by key under a total preorder. A
  uniqueness lemma shows that every stable sorted permutation equals this
  sort, so the engine's own algorithm gives the same result.
- `Snapshot` (`snapshot.dfy`): the document record, with each field
  `Option` because a Firestore field may be missing; the `FacultyItem`
  record; and `filter`.
- `Serving` (`serving.dfy`): the snapshot callback, written as a method
  with a loop and a sequence accumulator, as in the source. Also the
  served-student `find`, the row construction and the serving ticket text.
- `Waiting` (`waiting.dfy`): the waiting filter, the sort, the entry labels
  and the separator rendering.
- `Fixture` (`fixture.dfy`): the mock data of `app/mockData.ts`,
  evaluated by lemmas.

`localeCompare` is a parameter `le: (string, string) -> bool`, read as
`a.localeCompare(b) <= 0`. The ordering and stability results assume it is a total preorder.

Three behaviours of the code a reader may not expect:

- A faculty document without `displayedTicket` is not dropped. Its row
  shows `0000`, and nobody is listed as waiting for it
  (`Serving.MissingTicketShownAsZeros`, `JsString.PadStartOfEmpty`,
  `Waiting.NoWaitingWhenTicketIsNaN`).
- The served-student lookup does not check which faculty the student is
  queued under. It matches on ticket alone, so a student of another
  faculty holding the same ticket can be shown
  (`Fixture.ServedLookupIgnoresFaculty`).
- The lookup compares the raw fields. A faculty document with no
  `displayedTicket` therefore matches a student document with no
  `userTicketNumber` (`undefined === undefined`).

## Model

| member | source | states |
|---|---|---|
| `JsString.OrEmpty` | app/index.tsx:36-38 | a missing string becomes `''`, a present one is kept |
| `JsString.ToJsString` | app/index.tsx:93 | `String(field)` is the field's text, or `"undefined"` when it is missing |
| `JsString.PadStart` | app/index.tsx:62 | result length is `max(4, \|s\|)`; `s` is its suffix; every prepended character is the fill character |
| `JsString.PadStartLongUnchanged` | app/index.tsx:62 | a string already at the target width is returned unchanged |
| `JsString.PadStartIdempotent` | app/index.tsx:62 | padding twice equals padding once |
| `JsString.PadStartUnique` | app/index.tsx:62 | any string with the length, suffix and fill properties is the padded string, so the contract determines `padStart` |
| `JsString.LeadingDigits` | app/index.tsx:79 | the longest all-digit prefix: a prefix, all digits, and the next character is not a digit |
| `JsString.ParseInt` | app/index.tsx:79 | `NaN` exactly when the string does not start with a digit; otherwise a non-negative value |
| `JsString.ParseIntField` | app/index.tsx:79 | `parseInt(undefined)` is `NaN`; a present field is parsed |
| `JsString.OrZero` | app/index.tsx:82-83 | `parseInt(..) \|\| 0` maps `NaN` to 0 and keeps numbers |
| `JsString.DigitsValueLeadingZeros` | app/index.tsx:79 | leading zeros do not change a digit string's value |
| `JsString.PadStartKeepsParsedValue` | app/index.tsx:93 | zero-padding a ticket that starts with a digit keeps its `parseInt` value |
| `JsString.PadStartOfEmpty` | app/index.tsx:62 | an empty ticket displays as `0000`, which parses to 0, while the empty ticket itself parses to `NaN` |
| `StableSort.Insert` | app/index.tsx:26 | inserting adds exactly the inserted element (multiset) |
| `StableSort.SortBy` | app/index.tsx:81-85 | the sort result is a permutation of its input |
| `StableSort.InsertSorted` | app/index.tsx:26 | insertion into a sorted sequence keeps it sorted |
| `StableSort.InsertStable` | app/index.tsx:26 | insertion does not reorder any class of equivalent keys |
| `StableSort.SortBySorted` | app/index.tsx:26 | the sort result is non-decreasing under the preorder |
| `StableSort.SortByStable` | app/index.tsx:81-85 | elements with equivalent keys keep their input order |
| `StableSort.StableSortUnique` | app/index.tsx:81-85 | two sorted, stable permutations of the same input are equal |
| `StableSort.SortBySortedIsIdentity` | app/index.tsx:81-85 | sorting an already sorted sequence changes nothing |
| `StableSort.IntLeTotalPreorder` | app/index.tsx:84 | the order behind `ticketA - ticketB` is a total preorder |
| `Snapshot.Filter` | app/index.tsx:24-25 | the filter result is no longer than its input |
| `Snapshot.FilterMultiset` | app/index.tsx:76-80 | every element satisfying the condition is kept as often as it occurs; no other element is kept |
| `Snapshot.FilterMembers` | app/index.tsx:24-25 | an element is in the result if and only if it is in the input and satisfies the condition |
| `Snapshot.FilterIsSubsequence` | app/index.tsx:76-80 | the result is a subsequence of the input (increasing positions), so snapshot order is kept |
| `Snapshot.FilterAppend` | app/index.tsx:76-80 | filtering distributes over concatenation |
| `Snapshot.FilterKeepsAll` | app/index.tsx:76-80 | if every element passes, the filter returns its input |
| `Snapshot.FilterDropsAll` | app/index.tsx:76-80 | if no element passes, the filter returns `[]` |
| `Serving.SortedFacultyDocsArePermutation` | app/index.tsx:24-26 | the sorted faculty list holds every `FACULTY` document as often as the snapshot does, and nothing else |
| `Serving.SortedFacultyDocsSorted` | app/index.tsx:26 | the faculty list is ordered non-decreasingly by `fullName \|\| ''` |
| `Serving.SortedFacultyDocsStable` | app/index.tsx:26 | faculty documents whose names compare equal stay in snapshot order |
| `Serving.FirstServedIndex` | app/index.tsx:30-32 | the first position whose document is non-faculty with the matching raw ticket, or none if no position matches |
| `Serving.FindServedStudent` | app/index.tsx:30-32 | `undefined` exactly when no snapshot document matches; otherwise a matching snapshot document |
| `Serving.MakeRow` | app/index.tsx:34-41 | id kept; name, displayed ticket and user type default to `''`; queue length defaults to 0 |
| `Serving.ServedProgramIsFirstMatch` | app/index.tsx:30-40 | the row's program is that of the first matching document in snapshot order (`''` if it has none) |
| `Serving.NoServedStudentNoProgram` | app/index.tsx:40 | the row's program is `''` when no document matches |
| `Serving.ServingRows` | app/index.tsx:28-42 | one row per sorted faculty document |
| `Serving.OnSnapshot` | app/index.tsx:21-44 | the accumulated rows are the serving rows; there are as many as there are faculty documents; they are sorted by name whenever the comparator is a total preorder; and every `userType` is `FACULTY` |
| `Serving.ServingRowsAreFaculty` | app/index.tsx:38 | every row's `userType` is `FACULTY` |
| `Serving.ServingRowsSortedByName` | app/index.tsx:26 | row names are non-decreasing under the comparator |
| `Serving.RowOfFacultyDoc` | app/index.tsx:28-42 | each faculty document of the snapshot has its row |
| `Serving.FacultyDocOfRow` | app/index.tsx:28-42 | each row is built from a faculty document of the snapshot |
| `Serving.ServingRowsMatchFacultyDocs` | app/index.tsx:24-42 | rows and faculty documents correspond both ways, so no non-faculty document gets a row |
| `Serving.ServingTicketText` | app/index.tsx:61-62 | the text is the padded ticket when there is no program; otherwise it is `program`, `-`, then the padded ticket |
| `Serving.MissingTicketShownAsZeros` | app/index.tsx:29-37 | a faculty document with no `displayedTicket` shows `0000` and matches students with no ticket |
| `Waiting.WaitingStudentsExact` | app/index.tsx:75-80 | a document is waiting if and only if it is in the snapshot, is non-faculty, names this faculty and has a greater parsed ticket; it appears as often as in the snapshot |
| `Waiting.NoWaitingWhenTicketIsNaN` | app/index.tsx:79 | a `displayedTicket` with no numeric prefix gives an empty waiting list |
| `Waiting.WaitingStudentsAscend` | app/index.tsx:79-85 | every waiting ticket is numeric and past the served one, and the tickets ascend along the list |
| `Waiting.WaitingStudentsStable` | app/index.tsx:81-85 | students with equal tickets keep their filtered (snapshot) order |
| `Waiting.EntryLabelShape` | app/index.tsx:93 | a label is the program, `-`, zeros, then the ticket; its ticket part parses like the ticket |
| `Waiting.Labels` | app/index.tsx:91-93 | one label per waiting student, in order |
| `Waiting.Pieces` | app/index.tsx:91-95 | one rendered piece per label |
| `Waiting.SeparatorPlacement` | app/index.tsx:94 | `", "` follows every entry except the last |
| `Waiting.PiecesJoin` | app/index.tsx:91-95 | the index-based rendering equals the labels joined with `", "` |
| `Waiting.WaitingTextIsJoin` | app/index.tsx:75-95 | a row's waiting text is its waiting students' labels joined with `", "` |
| `Fixture.MockTickets` | app/mockData.ts:14-124 | `"0023"` to `"0027"` parse to 23 to 27 |
| `Fixture.DrSmithWaiting` | app/mockData.ts:89-126 | Dr. Smith (ticket `0023`) has exactly the four students `0024` to `0027` waiting, in that order |
| `Fixture.DrSmithWaitingText` | app/mockData.ts:89-126 | the text is `BSCS-0024, BSCS-0025, BSIT-0026, BSCS-0027` |
| `Fixture.DrSmithServingText` | app/mockData.ts:14-21 | program `BSCS` with ticket `0023` reads `BSCS-0023` |
| `Fixture.ServedLookupIgnoresFaculty` | app/index.tsx:30-32 | a student of another faculty with the same ticket, earlier in the snapshot, is the one shown |

## Left out

- Firestore `collection`, `onSnapshot`, `unsubscribe` and `db`: an external realtime client. The snapshot is an input sequence of documents.
- React `useState`/`useEffect` state and the JSX layout: UI plumbing. The setters only store the projection; the two panels are maps of the per-row functions over the rows.
- `StyleSheet` objects: constants with no behaviour.
- Pagination, timers and synchronised scrolling: none of the modelled code has them.
- `app/_layout.tsx` and `metro.config.js`: router and bundler configuration, with no logic.
- Locale collation: `localeCompare` is the parameter `le`, assumed to be a total preorder.
- JsString.ParseInt: models only the leading run of decimal digits. Leading whitespace, a sign, a `0x` prefix and non-string arguments are not modelled, because tickets are zero-padded digit strings. The result is an unbounded integer, while JavaScript's `parseInt` returns a double: digit runs beyond 2^53 lose precision there (so two distinct long tickets can compare equal) and runs of more than about 309 digits become `Infinity` (which makes the waiting comparator's difference `NaN`). The model does not capture this, because tickets are short ASCII digit strings.
- JsString.PadStart: lengths count Unicode scalar values (Dafny `char`), while JavaScript's `padStart` counts UTF-16 code units, so a string with a character outside the Basic Multilingual Plane gets one more fill character in the model than in JavaScript. The model does not capture this, because tickets are short ASCII digit strings.
- Snapshot.Doc fields hold strings or integers only. JavaScript falsiness of other values (`null`, `NaN`, numbers stored where strings are expected) is not modelled.
- Serving.MakeRow: `numOnQueue || 0` is modelled as "missing becomes 0". A stored `NaN` also becomes 0 in JavaScript; that case is not modelled.
