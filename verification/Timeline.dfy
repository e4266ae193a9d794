/** The case timeline: events in the order of their facts, read page by page. */
module Timeline {
  import opened Wrappers
  import opened Sorting

  // A row of timeline_events. The column keeps microseconds; ids are ordered as their UUIDs are.
  datatype Event = Event(id: nat, organization: nat, caseId: nat, occurredAt: Option<int>, sourceDeleted: bool)

  // What a cursor carries: the date as the Date object holds it, in milliseconds.
  datatype Cursor = Cursor(occurredAt: Option<int>, id: nat)

  datatype Page = Page(data: seq<Event>, hasNextPage: bool, nextCursor: Option<Cursor>)

  type Table = seq<Event>

  // The rows one walk asks for.
  datatype Request = Request(organization: nat, caseId: nat, limit: nat)

  const MICROS := 1000

  function CursorOf(e: Event): Cursor {
    Cursor(match e.occurredAt case None => None case Some(micros) => Some(micros / MICROS), e.id)
  }

  predicate AfterCursor(cursor: Cursor, e: Event) {
    match cursor.occurredAt
    case None => e.occurredAt.None? && e.id > cursor.id
    case Some(ms) =>
      || (e.occurredAt.Some? && e.occurredAt.value > ms * MICROS)
      || (e.occurredAt.Some? && e.occurredAt.value == ms * MICROS && e.id > cursor.id)
      || e.occurredAt.None?
  }

  predicate Passes(cursor: Option<Cursor>, e: Event) {
    cursor.Some? ==> AfterCursor(cursor.value, e)
  }

  // The order of the facts: dates ascending, undated last, ids between equals.
  predicate Before(a: Event, b: Event) {
    match (a.occurredAt, b.occurredAt)
    case (Some(s), Some(t)) => s < t || (s == t && a.id < b.id)
    case (Some(_), None) => true
    case (None, Some(_)) => false
    case (None, None) => a.id < b.id
  }

  // A row of the case whose source document, if any, has not been deleted.
  predicate Shown(request: Request, e: Event) {
    e.organization == request.organization && e.caseId == request.caseId && !e.sourceDeleted
  }

  function Matching(request: Request, table: Table, cursor: Option<Cursor>): seq<Event> {
    if table == [] then []
    else
      var e := table[|table| - 1];
      Matching(request, table[..|table| - 1], cursor) + if Shown(request, e) && Passes(cursor, e) then [e] else []
  }

  function Take(s: seq<Event>, n: nat): seq<Event> {
    if n < |s| then s[..n] else s
  }

  // TimelineRepository.list
  function Query(request: Request, table: Table, cursor: Option<Cursor>, take: nat): seq<Event> {
    Take(Sort(Before, Matching(request, table, cursor)), take)
  }

  // TimelineService.list
  function List(request: Request, table: Table, cursor: Option<Cursor>): Page
    requires request.limit >= 1
  {
    var rows := Query(request, table, cursor, request.limit + 1);
    var hasNextPage := |rows| > request.limit;
    var pageRows := if hasNextPage then rows[..request.limit] else rows;
    Page(pageRows, hasNextPage, if hasNextPage then Some(CursorOf(pageRows[|pageRows| - 1])) else None)
  }

  // ---------- The cursor and the order ----------

  // A date the cursor carries without loss.
  predicate WholeMilliseconds(e: Event) {
    e.occurredAt.Some? ==> e.occurredAt.value % MICROS == 0
  }

  /** The cursor of a row selects exactly the rows after it, whatever they are, if and only if the
      row's date has no fraction of a millisecond. */
  lemma CursorMeansAfter(e: Event)
    ensures (forall x :: AfterCursor(CursorOf(e), x) <==> Before(e, x)) <==> WholeMilliseconds(e)
  {
    if WholeMilliseconds(e) {
      forall x ensures AfterCursor(CursorOf(e), x) <==> Before(e, x) {
        CursorOfWhole(e, x);
      }
    } else {
      CursorOfTruncated(e);
    }
  }

  lemma CursorOfWhole(e: Event, x: Event)
    requires WholeMilliseconds(e)
    ensures AfterCursor(CursorOf(e), x) <==> Before(e, x)
  {
  }

  // A truncated cursor selects its own row again.
  lemma CursorOfTruncated(e: Event)
    requires !WholeMilliseconds(e)
    ensures AfterCursor(CursorOf(e), e) && !Before(e, e)
  {
  }

  lemma BeforeIsComparison()
    ensures Comparison(Before)
  {
  }

  // ---------- One page ----------

  // Everything a walk still has to read.
  function Remaining(request: Request, table: Table, cursor: Option<Cursor>): seq<Event> {
    Sort(Before, Matching(request, table, cursor))
  }

  ghost predicate DistinctIds(s: seq<Event>) {
    forall i, j :: 0 <= i < j < |s| ==> s[i].id != s[j].id
  }

  ghost predicate Ascending(s: seq<Event>) {
    forall i, j :: 0 <= i < j < |s| ==> Before(s[i], s[j])
  }

  // Whether the next page has to hold this row, if it is still there.
  predicate Wanted(request: Request, cursor: Option<Cursor>, e: Event) {
    Shown(request, e) && Passes(cursor, e)
  }

  lemma {:induction false} MatchingIsExact(request: Request, table: Table, cursor: Option<Cursor>)
    ensures forall e :: e in Matching(request, table, cursor) <==> e in table && Wanted(request, cursor, e)
  {
    if table != [] {
      var front := table[..|table| - 1];
      MatchingIsExact(request, front, cursor);
      assert table == front + [table[|table| - 1]];
    }
  }

  lemma {:induction false} MatchingKeepsDistinct(request: Request, table: Table, cursor: Option<Cursor>)
    requires DistinctIds(table)
    ensures DistinctIds(Matching(request, table, cursor))
  {
    if table != [] {
      var front, last := table[..|table| - 1], table[|table| - 1];
      MatchingKeepsDistinct(request, front, cursor);
      MatchingIsExact(request, front, cursor);
      var m := Matching(request, front, cursor);
      forall i | 0 <= i < |m| ensures m[i].id != last.id {
        assert m[i] in front;
      }
    }
  }

  lemma DistinctCounts(s: seq<Event>, t: seq<Event>)
    requires DistinctIds(s) && multiset(s) == multiset(t)
    ensures DistinctIds(t)
  {
    forall i, j | 0 <= i < j < |t| && t[i].id == t[j].id ensures false {
      assert t[i] in multiset(s) && t[j] in multiset(s);
      var a: nat :| a < |s| && s[a] == t[i];
      var b: nat :| b < |s| && s[b] == t[j];
      assert a == b;
      TwoOccurrences(t, i, j);
      OneOccurrence(s, a);
    }
  }

  lemma TwoOccurrences(t: seq<Event>, i: nat, j: nat)
    requires i < j < |t| && t[i] == t[j]
    ensures multiset(t)[t[i]] >= 2
  {
    assert t == t[..j] + [t[j]] + t[j + 1..];
    assert t[i] in t[..j];
  }

  lemma OneOccurrence(s: seq<Event>, a: nat)
    requires a < |s| && DistinctIds(s)
    ensures multiset(s)[s[a]] <= 1
  {
    assert s == s[..a] + [s[a]] + s[a + 1..];
    assert s[a] !in s[..a] && s[a] !in s[a + 1..];
  }

  // An earlier date, or the same date or none at all and a smaller id, or a date against none.
  ghost predicate DatedBefore(a: Event, b: Event) {
    || (a.occurredAt.Some? && b.occurredAt.Some? && a.occurredAt.value < b.occurredAt.value)
    || (a.occurredAt == b.occurredAt && a.id < b.id)
    || (a.occurredAt.Some? && b.occurredAt.None?)
  }

  lemma BeforeIsByDate(a: Event, b: Event)
    ensures Before(a, b) <==> DatedBefore(a, b)
  {
  }

  /** What remains is exactly the wanted rows, each once, in the order of the facts. */
  lemma RemainingIsExact(request: Request, table: Table, cursor: Option<Cursor>)
    requires DistinctIds(table)
    ensures Ascending(Remaining(request, table, cursor))
    ensures forall e :: e in Remaining(request, table, cursor) <==> e in table && Wanted(request, cursor, e)
    ensures forall e :: e in Remaining(request, table, cursor) <==>
              && e in table && e.organization == request.organization && e.caseId == request.caseId && !e.sourceDeleted
              && (cursor.None? || AfterCursor(cursor.value, e))
    ensures var rows := Remaining(request, table, cursor);
            forall i, j :: 0 <= i < j < |rows| ==> DatedBefore(rows[i], rows[j])
  {
    var m := Matching(request, table, cursor);
    MatchingIsExact(request, table, cursor);
    SortKeepsMembers(Before, m);
    BeforeIsComparison();
    SortOrders(Before, m);
    MatchingKeepsDistinct(request, table, cursor);
    SortPermutes(Before, m);
    DistinctCounts(m, Sort(Before, m));
    OrderedAndDistinct(Sort(Before, m));
    forall i, j | 0 <= i < j < |Sort(Before, m)| ensures DatedBefore(Sort(Before, m)[i], Sort(Before, m)[j]) {
      BeforeIsByDate(Sort(Before, m)[i], Sort(Before, m)[j]);
    }
  }

  lemma OrderedAndDistinct(s: seq<Event>)
    requires Ordered(Before, s) && DistinctIds(s)
    ensures Ascending(s)
  {
    forall i, j | 0 <= i < j < |s| ensures Before(s[i], s[j]) {
      assert !Before(s[j], s[i]) && s[i].id != s[j].id;
    }
  }

  /** A page is the first rows that remain; another follows exactly when some are left. */
  lemma PageIsTheFirstRows(request: Request, table: Table, cursor: Option<Cursor>)
    requires request.limit >= 1
    ensures var rows, page := Remaining(request, table, cursor), List(request, table, cursor);
            && page.data == Take(rows, request.limit)
            && page.hasNextPage == (|rows| > request.limit) == page.nextCursor.Some?
            && (page.hasNextPage ==> page.nextCursor.value == CursorOf(rows[request.limit - 1]))
  {
    var rows := Remaining(request, table, cursor);
    if |rows| > request.limit {
      assert Take(rows, request.limit + 1)[..request.limit] == rows[..request.limit];
    }
  }

  // ---------- A walk over changing data ----------

  // The rows collected by following nextCursor, the k-th page being read from the k-th snapshot.
  function Walk(request: Request, snapshots: seq<Table>, cursor: Option<Cursor>): seq<Event>
    requires request.limit >= 1
  {
    if snapshots == [] then []
    else
      var page := List(request, snapshots[0], cursor);
      page.data + if page.nextCursor.Some? then Walk(request, snapshots[1..], page.nextCursor) else []
  }

  // The walk reaches a page that has no next one.
  predicate Ends(request: Request, snapshots: seq<Table>, cursor: Option<Cursor>)
    requires request.limit >= 1
  {
    snapshots != [] &&
    var page := List(request, snapshots[0], cursor);
    page.nextCursor.Some? ==> Ends(request, snapshots[1..], page.nextCursor)
  }

  ghost predicate AllDistinct(snapshots: seq<Table>) {
    forall k :: 0 <= k < |snapshots| ==> DistinctIds(snapshots[k])
  }

  // Where the next page continues: exactly after the last row of this one.
  lemma NextPageContinues(request: Request, table: Table, cursor: Option<Cursor>, x: Event)
    requires request.limit >= 1
    requires var rows := Remaining(request, table, cursor);
             |rows| > request.limit && WholeMilliseconds(rows[request.limit - 1])
    ensures var rows, page := Remaining(request, table, cursor), List(request, table, cursor);
            && page.nextCursor.Some?
            && (Passes(page.nextCursor, x) <==> Before(rows[request.limit - 1], x))
  {
    PageIsTheFirstRows(request, table, cursor);
    CursorOfWhole(Remaining(request, table, cursor)[request.limit - 1], x);
  }

  lemma BeforeIsTransitive(a: Event, b: Event, c: Event)
    requires Before(a, b) && Before(b, c)
    ensures Before(a, c)
  {
  }

  lemma AscendingConcat(s: seq<Event>, t: seq<Event>)
    requires Ascending(s) && Ascending(t)
    requires s != [] ==> forall x :: x in t ==> Before(s[|s| - 1], x)
    ensures Ascending(s + t)
  {
    forall i, j | 0 <= i < j < |s + t| ensures Before((s + t)[i], (s + t)[j]) {
      if i < |s| <= j {
        var x := t[j - |s|];
        assert x in t;
        if i < |s| - 1 {
          BeforeIsTransitive(s[i], s[|s| - 1], x);
        }
      }
    }
  }

  // A row that the cursor of another selects although it does not come after it.
  predicate Again(last: Event, e: Event) {
    AfterCursor(CursorOf(last), e) && !Before(last, e)
  }

  /** Such rows lie in the fraction of a millisecond that the cursor cut off, its own row among them;
      only at the very start of the millisecond does the id decide the wrong way round. */
  lemma AgainExactly(last: Event, e: Event)
    ensures Again(last, e) <==>
            && !WholeMilliseconds(last) && e.occurredAt.Some?
            && var start := last.occurredAt.value / MICROS * MICROS;
               || start < e.occurredAt.value < last.occurredAt.value
               || (e.occurredAt.value == last.occurredAt.value && e.id <= last.id)
               || (e.occurredAt.value == start && e.id > last.id)
  {
  }

  // Nothing is skipped: a cursor selects whatever comes after its row.
  lemma CursorSkipsNothing(last: Event, e: Event)
    requires Before(last, e)
    ensures AfterCursor(CursorOf(last), e)
  {
  }

  // The last row of a page that another follows.
  function LastRow(page: Page): Event
    requires page.data != []
  {
    page.data[|page.data| - 1]
  }

  lemma NextCursorIsOfLastRow(request: Request, table: Table, cursor: Option<Cursor>)
    requires request.limit >= 1 && List(request, table, cursor).nextCursor.Some?
    ensures var page := List(request, table, cursor);
            page.data != [] && page.nextCursor == Some(CursorOf(LastRow(page)))
  {
  }

  // No shown row of the table is selected again by the cursor of the last row.
  ghost predicate NoneAgain(request: Request, table: Table, last: Event) {
    forall e :: e in table && Shown(request, e) ==> !Again(last, e)
  }

  // When each page is read, the table holds no row that the cursor selects again.
  ghost predicate ReadsNothingAgain(request: Request, snapshots: seq<Table>, cursor: Option<Cursor>)
    requires request.limit >= 1
  {
    snapshots != [] && List(request, snapshots[0], cursor).nextCursor.Some? ==>
      var page := List(request, snapshots[0], cursor);
      NextCursorIsOfLastRow(request, snapshots[0], cursor);
      && (|snapshots| > 1 ==> NoneAgain(request, snapshots[1], LastRow(page)))
      && ReadsNothingAgain(request, snapshots[1..], page.nextCursor)
  }

  // The page after a row starts after it exactly when no row is selected again.
  lemma FirstOfNextPage(request: Request, table: Table, last: Event)
    requires request.limit >= 1 && DistinctIds(table)
    ensures var page := List(request, table, Some(CursorOf(last)));
            (page.data != [] ==> Before(last, page.data[0])) <==> NoneAgain(request, table, last)
  {
    var cursor := Some(CursorOf(last));
    var rows := Remaining(request, table, cursor);
    PageIsTheFirstRows(request, table, cursor);
    RemainingIsExact(request, table, cursor);
    if rows != [] {
      assert rows[0] in rows;
      if Before(last, rows[0]) {
        forall e | e in table && Shown(request, e) ensures !Again(last, e) {
          if AfterCursor(CursorOf(last), e) {
            assert e in rows;
            FirstIsLeast(rows, e);
          }
        }
      } else {
        assert Again(last, rows[0]);
      }
    } else {
      forall e | e in table && Shown(request, e) ensures !Again(last, e) {
        assert e !in rows;
      }
    }
  }

  lemma FirstIsLeast(rows: seq<Event>, e: Event)
    requires Ascending(rows) && e in rows
    ensures e == rows[0] || Before(rows[0], e)
  {
    var i :| 0 <= i < |rows| && rows[i] == e;
    assert i > 0 ==> Before(rows[0], rows[i]);
  }

  // Two ascending pieces ascend together exactly when the second starts after the end of the first.
  lemma AscendingJoins(s: seq<Event>, t: seq<Event>)
    requires s != [] && Ascending(s)
    ensures Ascending(s + t) <==> Ascending(t) && (t != [] ==> Before(s[|s| - 1], t[0]))
  {
    if t == [] {
      assert s + t == s;
    } else if Ascending(s + t) {
      forall i, j | 0 <= i < j < |t| ensures Before(t[i], t[j]) {
        assert Before((s + t)[|s| + i], (s + t)[|s| + j]);
      }
      assert Before((s + t)[|s| - 1], (s + t)[|s|]);
    } else if Ascending(t) && Before(s[|s| - 1], t[0]) {
      forall x | x in t ensures Before(s[|s| - 1], x) {
        FirstIsLeast(t, x);
      }
      AscendingConcat(s, t);
    }
  }

  lemma FirstOfWalk(request: Request, snapshots: seq<Table>, cursor: Option<Cursor>)
    requires request.limit >= 1 && snapshots != []
    ensures var walk, page := Walk(request, snapshots, cursor), List(request, snapshots[0], cursor);
            (walk == [] <==> page.data == []) && (walk != [] ==> walk[0] == page.data[0])
  {
  }

  /** However the data changes between pages, the rows of a walk are strictly in the order of the
      facts, so that none is repeated, if and only if at no page the table holds a row that the
      cursor selects again. */
  lemma {:induction false} WalkIsAscendingExactly(request: Request, snapshots: seq<Table>, cursor: Option<Cursor>)
    requires request.limit >= 1 && AllDistinct(snapshots)
    ensures Ascending(Walk(request, snapshots, cursor)) <==> ReadsNothingAgain(request, snapshots, cursor)
  {
    if snapshots != [] {
      var page := List(request, snapshots[0], cursor);
      assert DistinctIds(snapshots[0]);
      PageIsAscending(request, snapshots[0], cursor);
      if page.nextCursor.Some? {
        NextCursorIsOfLastRow(request, snapshots[0], cursor);
        WalkIsAscendingExactly(request, snapshots[1..], page.nextCursor);
        AscendingJoins(page.data, Walk(request, snapshots[1..], page.nextCursor));
        if |snapshots| > 1 {
          assert snapshots[1..][0] == snapshots[1];
          FirstOfWalk(request, snapshots[1..], page.nextCursor);
          FirstOfNextPage(request, snapshots[1], LastRow(page));
        }
      } else {
        assert Walk(request, snapshots, cursor) == page.data;
      }
    }
  }

  lemma PageIsAscending(request: Request, table: Table, cursor: Option<Cursor>)
    requires request.limit >= 1 && DistinctIds(table)
    ensures Ascending(List(request, table, cursor).data)
  {
    PageIsTheFirstRows(request, table, cursor);
    RemainingIsExact(request, table, cursor);
  }

  // Unless dates have a fraction of a millisecond, which a Date object cannot write, nothing is.
  ghost predicate AllWhole(request: Request, snapshots: seq<Table>) {
    forall k, e :: 0 <= k < |snapshots| && e in snapshots[k] && Shown(request, e) ==> WholeMilliseconds(e)
  }

  lemma {:induction false} WholeReadsNothingAgain(request: Request, snapshots: seq<Table>, cursor: Option<Cursor>)
    requires request.limit >= 1 && AllDistinct(snapshots) && AllWhole(request, snapshots)
    ensures ReadsNothingAgain(request, snapshots, cursor)
  {
    if snapshots != [] && List(request, snapshots[0], cursor).nextCursor.Some? {
      var page := List(request, snapshots[0], cursor);
      NextCursorIsOfLastRow(request, snapshots[0], cursor);
      PageIsShown(request, snapshots[0], cursor, LastRow(page));
      forall e ensures !Again(LastRow(page), e) {
        AgainExactly(LastRow(page), e);
      }
      WholeReadsNothingAgain(request, snapshots[1..], page.nextCursor);
    }
  }

  lemma PageIsShown(request: Request, table: Table, cursor: Option<Cursor>, e: Event)
    requires request.limit >= 1 && DistinctIds(table) && e in List(request, table, cursor).data
    ensures e in table && Shown(request, e)
  {
    PageIsTheFirstRows(request, table, cursor);
    RemainingIsExact(request, table, cursor);
    assert e in Remaining(request, table, cursor);
  }

  // A row of some snapshot, shown there.
  ghost predicate ShownSomewhere(request: Request, snapshots: seq<Table>, e: Event) {
    Shown(request, e) && exists k :: 0 <= k < |snapshots| && e in snapshots[k]
  }

  /** Every row of a walk was shown when it was read. */
  lemma {:induction false} WalkIsShown(request: Request, snapshots: seq<Table>, cursor: Option<Cursor>, e: Event)
    requires request.limit >= 1 && AllDistinct(snapshots) && e in Walk(request, snapshots, cursor)
    ensures ShownSomewhere(request, snapshots, e)
  {
    assert DistinctIds(snapshots[0]);
    var page := List(request, snapshots[0], cursor);
    if e in page.data {
      PageIsShown(request, snapshots[0], cursor, e);
    } else {
      WalkIsShown(request, snapshots[1..], page.nextCursor, e);
      ShownLater(request, snapshots, e);
    }
  }

  /** Where dates have no fraction of a millisecond, every walk is strictly in the order of the facts,
      whatever happens to the data between its pages. */
  lemma WalkIsAscending(request: Request, snapshots: seq<Table>, cursor: Option<Cursor>)
    requires request.limit >= 1 && AllDistinct(snapshots) && AllWhole(request, snapshots)
    ensures Ascending(Walk(request, snapshots, cursor))
  {
    WholeReadsNothingAgain(request, snapshots, cursor);
    WalkIsAscendingExactly(request, snapshots, cursor);
  }

  lemma StillPasses(cursor: Option<Cursor>, last: Event, e: Event)
    requires Passes(cursor, last) && Before(last, e)
    ensures Passes(cursor, e)
  {
  }

  lemma ShownLater(request: Request, snapshots: seq<Table>, e: Event)
    requires snapshots != [] && ShownSomewhere(request, snapshots[1..], e)
    ensures ShownSomewhere(request, snapshots, e)
  {
    var k :| 0 <= k < |snapshots[1..]| && e in snapshots[1..][k];
    assert e in snapshots[k + 1];
  }

  /** Once a walk ends, it has read every row that stayed in place, whatever its date, however many
      others came or went between its pages. */
  lemma {:induction false} WalkIsComplete(request: Request, snapshots: seq<Table>, cursor: Option<Cursor>, e: Event)
    requires request.limit >= 1 && AllDistinct(snapshots) && Ends(request, snapshots, cursor)
    requires Wanted(request, cursor, e) && forall k :: 0 <= k < |snapshots| ==> e in snapshots[k]
    ensures e in Walk(request, snapshots, cursor)
  {
    var table := snapshots[0];
    assert DistinctIds(table) && e in table;
    var rows, page := Remaining(request, table, cursor), List(request, table, cursor);
    PageIsTheFirstRows(request, table, cursor);
    RemainingIsExact(request, table, cursor);
    var i :| 0 <= i < |rows| && rows[i] == e;
    if i >= request.limit {
      CursorSkipsNothing(rows[request.limit - 1], e);
      WalkIsComplete(request, snapshots[1..], page.nextCursor, e);
    } else {
      assert e in page.data;
    }
  }

  // ---------- A walk over fixed data ----------

  lemma {:induction false} AscendingIsUnique(s: seq<Event>, t: seq<Event>)
    requires Ascending(s) && Ascending(t) && forall e :: e in s <==> e in t
    ensures s == t
  {
    if s != [] {
      assert s[0] in t;
    }
    if t != [] {
      assert t[0] in s;
    }
    if s != [] && t != [] {
      assert s[0] == t[0];
      forall e ensures e in s[1..] <==> e in t[1..] {
        TailMembers(s, e);
        TailMembers(t, e);
      }
      AscendingIsUnique(s[1..], t[1..]);
    }
  }

  lemma TailMembers(s: seq<Event>, e: Event)
    requires Ascending(s) && s != []
    ensures e in s[1..] <==> e in s && e != s[0]
  {
    if e in s && e != s[0] {
      var i :| 0 <= i < |s| && s[i] == e;
      assert s[1..][i - 1] == e;
    }
  }

  lemma RowsAfter(s: seq<Event>, n: nat, e: Event)
    requires Ascending(s) && 0 < n < |s|
    ensures e in s[n..] <==> e in s && Before(s[n - 1], e)
  {
    if e in s[n..] {
      var j :| 0 <= j < |s[n..]| && s[n..][j] == e;
      assert Before(s[n - 1], s[n + j]);
    }
    forall i | 0 <= i < n ensures !Before(s[n - 1], s[i]) {
      assert i < n - 1 ==> Before(s[i], s[n - 1]);
    }
    if e in s && Before(s[n - 1], e) {
      var i :| 0 <= i < |s| && s[i] == e;
      assert s[n..][i - n] == e;
    }
  }

  // Rows whose dates the cursor carries without loss, the last one excepted: it never ends a page
  // that another follows.
  ghost predicate WholeButLast(rows: seq<Event>) {
    forall i :: 0 <= i < |rows| - 1 ==> WholeMilliseconds(rows[i])
  }

  // The page after the next cursor is the rest of the rows.
  lemma RestOfTheRows(request: Request, table: Table, cursor: Option<Cursor>)
    requires request.limit >= 1 && DistinctIds(table)
    requires var rows := Remaining(request, table, cursor);
             |rows| > request.limit && WholeMilliseconds(rows[request.limit - 1])
    ensures var rows, next := Remaining(request, table, cursor), List(request, table, cursor).nextCursor;
            next.Some? && Remaining(request, table, next) == rows[request.limit..]
  {
    var rows, next := Remaining(request, table, cursor), List(request, table, cursor).nextCursor;
    RemainingIsExact(request, table, cursor);
    RemainingIsExact(request, table, next);
    var last := rows[request.limit - 1];
    assert last in rows;
    forall e ensures e in Remaining(request, table, next) <==> e in rows[request.limit..] {
      NextPageContinues(request, table, cursor, e);
      RowsAfter(rows, request.limit, e);
      if Before(last, e) {
        StillPasses(cursor, last, e);
      }
    }
    AscendingIsUnique(Remaining(request, table, next), rows[request.limit..]);
  }

  // k reads of a table that does not change.
  function Copies(table: Table, k: nat): (snapshots: seq<Table>)
    ensures |snapshots| == k
  {
    seq(k, _ => table)
  }

  lemma CopiesTail(table: Table, k: nat)
    requires k > 0
    ensures Copies(table, k)[0] == table && Copies(table, k)[1..] == Copies(table, k - 1)
  {
  }

  lemma WalkUnfolds(request: Request, table: Table, k: nat, cursor: Option<Cursor>)
    requires request.limit >= 1 && k > 0
    ensures var page := List(request, table, cursor);
            Walk(request, Copies(table, k), cursor)
            == page.data + if page.nextCursor.Some? then Walk(request, Copies(table, k - 1), page.nextCursor) else []
    ensures var next := List(request, table, cursor).nextCursor;
            Ends(request, Copies(table, k), cursor) <==> next.None? || Ends(request, Copies(table, k - 1), next)
  {
    CopiesTail(table, k);
  }

  /** Over a table that does not change, k pages end the walk exactly when they have room for all its
      rows, and then the walk is the whole list in order. */
  lemma {:induction false} FixedWalkIsTheList(request: Request, table: Table, k: nat, cursor: Option<Cursor>)
    requires request.limit >= 1 && DistinctIds(table) && WholeButLast(Remaining(request, table, cursor))
    ensures var rows := Remaining(request, table, cursor);
            && (Ends(request, Copies(table, k), cursor) <==> k > 0 && |rows| <= k * request.limit)
            && (Ends(request, Copies(table, k), cursor) ==> Walk(request, Copies(table, k), cursor) == rows)
    decreases k
  {
    if k > 0 {
      var rows, next := Remaining(request, table, cursor), List(request, table, cursor).nextCursor;
      WalkUnfolds(request, table, k, cursor);
      PageIsTheFirstRows(request, table, cursor);
      Distribute(k, request.limit);
      if next.Some? {
        RestOfTheRows(request, table, cursor);
        RestIsWhole(rows, request.limit);
        FixedWalkIsTheList(request, table, k - 1, next);
        SplitAt(rows, request.limit);
      }
    }
  }

  lemma SplitAt(rows: seq<Event>, n: nat)
    requires n <= |rows|
    ensures rows[..n] + rows[n..] == rows
  {
  }

  lemma RestIsWhole(rows: seq<Event>, n: nat)
    requires WholeButLast(rows) && n <= |rows|
    ensures WholeButLast(rows[n..])
  {
  }

  lemma Distribute(k: nat, limit: nat)
    requires k > 0
    ensures k * limit == limit + (k - 1) * limit && (k - 1) * limit >= 0
  {
  }

  // ---------- What a fraction of a millisecond does ----------

  /** A row left at the end of a page is read again by the next one exactly when its date has a
      fraction of a millisecond. */
  lemma RowIsRepeatedExactly(request: Request, table: Table, e: Event)
    requires DistinctIds(table) && e in table && Shown(request, e)
    ensures e in Remaining(request, table, Some(CursorOf(e))) <==> !WholeMilliseconds(e)
  {
    RemainingIsExact(request, table, Some(CursorOf(e)));
    if WholeMilliseconds(e) {
      CursorOfWhole(e, e);
    } else {
      CursorOfTruncated(e);
    }
  }

  // With one row a page, the row after a truncated one is not the next in order.
  lemma TruncatedRowRepeats(request: Request, table: Table, k: nat, cursor: Option<Cursor>)
    requires request.limit == 1 && DistinctIds(table) && k >= 2
    requires var rows := Remaining(request, table, cursor); |rows| > 1 && !WholeMilliseconds(rows[0])
    ensures Walk(request, Copies(table, k), cursor) != Remaining(request, table, cursor)
  {
    var rows := Remaining(request, table, cursor);
    var next := Some(CursorOf(rows[0]));
    WalkUnfolds(request, table, k, cursor);
    WalkUnfolds(request, table, k - 1, next);
    PageIsTheFirstRows(request, table, cursor);
    PageIsTheFirstRows(request, table, next);
    RemainingIsExact(request, table, cursor);
    RemainingIsExact(request, table, next);
    CursorOfTruncated(rows[0]);
    var again := Remaining(request, table, next);
    assert rows[0] in rows && rows[0] in again;
    var i :| 0 <= i < |again| && again[i] == rows[0];
    assert again[0] == rows[0] || Before(again[0], rows[0]);
    assert Before(rows[0], rows[1]);
    assert List(request, table, next).data[0] == again[0];
    assert Walk(request, Copies(table, k), cursor)[1] == again[0];
  }

  lemma {:induction false} TruncatedRowBreaksTheWalk(request: Request, table: Table, k: nat, cursor: Option<Cursor>,
                                                     rows: seq<Event>, walk: seq<Event>)
    requires request.limit == 1 && DistinctIds(table) && k >= |rows|
    requires rows == Remaining(request, table, cursor) && walk == Walk(request, Copies(table, k), cursor)
    requires !WholeButLast(rows)
    ensures walk != rows
    decreases k
  {
    if !WholeMilliseconds(rows[0]) {
      TruncatedRowRepeats(request, table, k, cursor);
    } else {
      TruncationIsLater(rows);
      var tail, rest := WalkAfterFirst(request, table, k, cursor, rows, walk);
      TruncatedRowBreaksTheWalk(request, table, k - 1, List(request, table, cursor).nextCursor, tail, rest);
      PrependDiffers(rows, tail, rest);
    }
  }

  lemma TruncationIsLater(rows: seq<Event>)
    requires !WholeButLast(rows) && WholeMilliseconds(rows[0])
    ensures |rows| > 1 && !WholeButLast(rows[1..])
  {
    var i :| 0 <= i < |rows| - 1 && !WholeMilliseconds(rows[i]);
    assert rows[1..][i - 1] == rows[i];
  }

  lemma TakeOne(rows: seq<Event>, n: nat)
    requires n == 1 && rows != []
    ensures Take(rows, n) == [rows[0]]
  {
  }

  lemma FirstRowOfWalk(request: Request, table: Table, k: nat, cursor: Option<Cursor>)
    requires request.limit == 1 && k > 0 && |Remaining(request, table, cursor)| > 1
    ensures var next := List(request, table, cursor).nextCursor;
            && next.Some?
            && Walk(request, Copies(table, k), cursor)
               == [Remaining(request, table, cursor)[0]] + Walk(request, Copies(table, k - 1), next)
  {
    WalkUnfolds(request, table, k, cursor);
    PageIsTheFirstRows(request, table, cursor);
    TakeOne(Remaining(request, table, cursor), request.limit);
  }

  lemma RowsAfterFirst(request: Request, table: Table, cursor: Option<Cursor>, rows: seq<Event>)
    requires request.limit == 1 && DistinctIds(table) && rows == Remaining(request, table, cursor)
    requires |rows| > 1 && WholeMilliseconds(rows[0])
    ensures Remaining(request, table, List(request, table, cursor).nextCursor) == rows[1..]
  {
    RestOfTheRows(request, table, cursor);
  }

  // With one row a page: the first row, and the walk over the others.
  lemma WalkAfterFirst(request: Request, table: Table, k: nat, cursor: Option<Cursor>,
                       rows: seq<Event>, walk: seq<Event>)
    returns (tail: seq<Event>, rest: seq<Event>)
    requires request.limit == 1 && k > 0 && DistinctIds(table)
    requires rows == Remaining(request, table, cursor) && walk == Walk(request, Copies(table, k), cursor)
    requires |rows| > 1 && WholeMilliseconds(rows[0])
    ensures tail == rows[1..] && walk == [rows[0]] + rest
    ensures var next := List(request, table, cursor).nextCursor;
            tail == Remaining(request, table, next) && rest == Walk(request, Copies(table, k - 1), next)
  {
    var next := List(request, table, cursor).nextCursor;
    FirstRowOfWalk(request, table, k, cursor);
    RowsAfterFirst(request, table, cursor, rows);
    tail, rest := Remaining(request, table, next), Walk(request, Copies(table, k - 1), next);
  }

  lemma PrependDiffers(rows: seq<Event>, tail: seq<Event>, rest: seq<Event>)
    requires rows != [] && tail == rows[1..] && rest != tail
    ensures [rows[0]] + rest != rows
  {
    assert ([rows[0]] + rest)[1..] == rest;
  }

  // The walks of a case, whatever their limit, give the whole list once they have read enough pages.
  ghost predicate EveryWalkIsTheList(request: Request, table: Table) {
    forall limit: nat, k: nat :: limit >= 1 && k > 0 && |Remaining(request, table, None)| <= k * limit ==>
      Walk(request.(limit := limit), Copies(table, k), None) == Remaining(request, table, None)
  }

  lemma {:induction false} LimitDoesNotMatter(request: Request, limit: nat, table: Table, cursor: Option<Cursor>)
    ensures Matching(request.(limit := limit), table, cursor) == Matching(request, table, cursor)
  {
    if table != [] {
      LimitDoesNotMatter(request, limit, table[..|table| - 1], cursor);
    }
  }

  /** Every walk over fixed data gives the whole list in order, whatever its limit, if and only if no
      row but the last has a date with a fraction of a millisecond. */
  lemma WalksAreExactExactly(request: Request, table: Table)
    requires DistinctIds(table)
    ensures EveryWalkIsTheList(request, table) <==> WholeButLast(Remaining(request, table, None))
  {
    var rows := Remaining(request, table, None);
    if WholeButLast(rows) {
      forall limit: nat, k: nat | limit >= 1 && k > 0 && |rows| <= k * limit
        ensures Walk(request.(limit := limit), Copies(table, k), None) == rows
      {
        LimitDoesNotMatter(request, limit, table, None);
        FixedWalkIsTheList(request.(limit := limit), table, k, None);
      }
    } else {
      var one := request.(limit := 1);
      LimitDoesNotMatter(request, 1, table, None);
      TruncatedRowBreaksTheWalk(one, table, |rows|, None, rows, Walk(one, Copies(table, |rows|), None));
      assert |rows| <= |rows| * 1;
    }
  }

  lemma {:induction false} SameMatches(request: Request, table: Table, c: Option<Cursor>, d: Option<Cursor>)
    requires forall e :: e in table ==> (Wanted(request, c, e) <==> Wanted(request, d, e))
    ensures Matching(request, table, c) == Matching(request, table, d)
  {
    if table != [] {
      var front := table[..|table| - 1];
      assert forall e :: e in front ==> e in table;
      assert table[|table| - 1] in table;
      SameMatches(request, front, c, d);
    }
  }

  /** With one row a page and such a date on the first row, the second page is the first again, and
      so is every page after it. */
  lemma WalkCanStandStill(request: Request, table: Table)
    requires request.limit == 1 && DistinctIds(table)
    requires var rows := Remaining(request, table, None); |rows| > 1 && !WholeMilliseconds(rows[0])
    ensures var page := List(request, table, None);
            page.nextCursor.Some? && List(request, table, page.nextCursor) == page
  {
    var rows := Remaining(request, table, None);
    var next := Some(CursorOf(rows[0]));
    PageIsTheFirstRows(request, table, None);
    RemainingIsExact(request, table, None);
    CursorOfTruncated(rows[0]);
    forall e | e in table ensures Wanted(request, None, e) <==> Wanted(request, next, e) {
      if Shown(request, e) {
        assert e in rows;
        var i :| 0 <= i < |rows| && rows[i] == e;
        if i > 0 {
          StillPasses(next, rows[0], e);
        }
      }
    }
    SameMatches(request, table, None, next);
  }
}
