/** Keyset pagination of document versions under a per-actor visibility filter. */
module Pagination {
  import opened Sequences
  import opened Contracts
  import Text

  const INTERNAL_BATCH := 50
  const MAX_LOOPS := 20

  datatype SortField = UpdatedAt | Title | Status | UnknownSort
  datatype SortOrder = Asc | Desc | UnknownOrder

  datatype Keyset = Keyset(sortValue: string, documentId: string, version: int)

  datatype Query = Query(status: Option<DocumentStatus>, searchQ: Option<string>, sort: SortField, order: SortOrder)

  /** The decoded cursor record; base64 and JSON are taken as a lossless carrier of it. */
  datatype Cursor = Cursor(format: int, query: Query, position: Keyset)

  datatype Page = Page(items: seq<DocumentVersionState>, limit: int, nextCursor: Option<Cursor>)

  datatype QueryError = InvalidSort | InvalidOrder | InvalidLimit | InvalidCursor | CursorMismatch
  datatype Result<+T> = Ok(value: T) | Err(error: QueryError)

  // --- Sort keys and their order ---

  function SortValue(state: DocumentVersionState, sort: SortField): string {
    match sort
    case UpdatedAt =>
      if state.updatedAt.Some? then state.updatedAt.value
      else if state.lastEventAt.Some? then state.lastEventAt.value
      else if state.createdAt.Some? then state.createdAt.value
      else ""
    case Title => state.title
    case Status => StatusValue(state.status)
    case UnknownSort => ""
  }

  function KeyOf(state: DocumentVersionState, sort: SortField): Keyset {
    Keyset(SortValue(state, sort), state.documentId, state.version)
  }

  /** The comparator the in-memory sort uses: negative, zero or positive. */
  function CompareRows(left: Keyset, right: Keyset, order: SortOrder): int {
    if left.sortValue != right.sortValue then
      if order == Desc then
        (if Text.Less(left.sortValue, right.sortValue) then 1 else 0)
        - (if Text.Less(right.sortValue, left.sortValue) then 1 else 0)
      else
        (if Text.Less(right.sortValue, left.sortValue) then 1 else 0)
        - (if Text.Less(left.sortValue, right.sortValue) then 1 else 0)
    else if left.documentId != right.documentId then
      (if Text.Less(right.documentId, left.documentId) then 1 else 0)
      - (if Text.Less(left.documentId, right.documentId) then 1 else 0)
    else
      (if left.version > right.version then 1 else 0) - (if left.version < right.version then 1 else 0)
  }

  /** The test that decides whether a row lies behind a cursor. */
  predicate IsAfter(row: Keyset, after: Keyset, order: SortOrder) {
    if row.sortValue != after.sortValue then
      if order == Desc then Text.Less(row.sortValue, after.sortValue) else Text.Less(after.sortValue, row.sortValue)
    else if row.documentId != after.documentId then Text.Less(after.documentId, row.documentId)
    else row.version > after.version
  }

  /** The cursor test and the comparator agree, and together they are a strict total order. */
  lemma CursorTestMatchesComparator(a: Keyset, b: Keyset, order: SortOrder)
    ensures IsAfter(b, a, order) <==> CompareRows(a, b, order) < 0
    ensures IsAfter(a, b, order) <==> CompareRows(a, b, order) > 0
    ensures CompareRows(a, b, order) == 0 <==> a == b
    ensures !(IsAfter(a, b, order) && IsAfter(b, a, order))
  {
    Text.LessIsTotal(a.sortValue, b.sortValue);
    Text.LessIsTotal(a.documentId, b.documentId);
    NotBoth(a.sortValue, b.sortValue);
    NotBoth(a.documentId, b.documentId);
  }

  lemma NotBoth(a: string, b: string)
    ensures !(Text.Less(a, b) && Text.Less(b, a))
  {
    if Text.Less(a, b) && Text.Less(b, a) {
      Text.LessIsTransitive(a, b, a);
      Text.LessIsIrreflexive(a);
    }
  }

  lemma AfterIsTransitive(a: Keyset, b: Keyset, c: Keyset, order: SortOrder)
    requires IsAfter(b, a, order) && IsAfter(c, b, order)
    ensures IsAfter(c, a, order)
  {
    if a.sortValue != b.sortValue && b.sortValue != c.sortValue {
      if order == Desc {
        Text.LessIsTransitive(c.sortValue, b.sortValue, a.sortValue);
        NotBoth(b.sortValue, c.sortValue);
      } else {
        Text.LessIsTransitive(a.sortValue, b.sortValue, c.sortValue);
        NotBoth(b.sortValue, c.sortValue);
      }
    } else if a.sortValue == c.sortValue && a.documentId != b.documentId && b.documentId != c.documentId {
      Text.LessIsTransitive(a.documentId, b.documentId, c.documentId);
      NotBoth(a.documentId, b.documentId);
    }
  }

  function RowOrder(sort: SortField, order: SortOrder): (DocumentVersionState, DocumentVersionState) -> bool {
    (a, b) => CompareRows(KeyOf(a, sort), KeyOf(b, sort), order) <= 0
  }

  lemma RowOrderIsPreorder(sort: SortField, order: SortOrder)
    ensures TotalPreorder(RowOrder(sort, order))
  {
    var le := RowOrder(sort, order);
    forall a, b ensures le(a, b) || le(b, a) {
      CursorTestMatchesComparator(KeyOf(a, sort), KeyOf(b, sort), order);
      CursorTestMatchesComparator(KeyOf(b, sort), KeyOf(a, sort), order);
    }
    forall a, b, c | le(a, b) && le(b, c) ensures le(a, c) {
      var x, y, z := KeyOf(a, sort), KeyOf(b, sort), KeyOf(c, sort);
      CursorTestMatchesComparator(x, y, order);
      CursorTestMatchesComparator(y, z, order);
      CursorTestMatchesComparator(x, z, order);
      if x != y && y != z {
        AfterIsTransitive(x, y, z, order);
      }
    }
  }

  // --- The full answer: every matching row, sorted ---

  type SearchHit = (string, DocumentVersionState) -> bool

  predicate MatchesQuery(q: Query, hit: SearchHit, row: DocumentVersionState) {
    && (q.status.Some? ==> row.status == q.status.value)
    && (q.searchQ.Some? ==> hit(q.searchQ.value, row))
  }

  function Matching(q: Query, hit: SearchHit): DocumentVersionState -> bool {
    row => MatchesQuery(q, hit, row)
  }

  function Answer(states: seq<DocumentVersionState>, q: Query, hit: SearchHit): seq<DocumentVersionState> {
    Sort(Keep(states, Matching(q, hit)), RowOrder(q.sort, q.order))
  }

  ghost predicate StrictlySorted(rows: seq<DocumentVersionState>, q: Query) {
    forall i, j :: 0 <= i < j < |rows| ==> IsAfter(KeyOf(rows[j], q.sort), KeyOf(rows[i], q.sort), q.order)
  }

  lemma {:induction false} KeepIsDistinct(rows: seq<DocumentVersionState>, p: DocumentVersionState -> bool)
    requires DistinctRows(rows)
    ensures DistinctRows(Keep(rows, p))
  {
    if rows != [] {
      KeepIsDistinct(rows[1..], p);
      var rest := Keep(rows[1..], p);
      forall x | x in rest ensures x.documentId != rows[0].documentId || x.version != rows[0].version {
        KeepMembers(rows[1..], p, x);
      }
    }
  }

  lemma DistinctRowsSurviveSorting(rows: seq<DocumentVersionState>, sorted: seq<DocumentVersionState>)
    requires DistinctRows(rows) && multiset(rows) == multiset(sorted)
    ensures DistinctRows(sorted)
  {
    DistinctByMultiset(rows, sorted);
    forall i, j | 0 <= i < j < |sorted|
      ensures sorted[i].documentId != sorted[j].documentId || sorted[i].version != sorted[j].version
    {
      var x, y := sorted[i], sorted[j];
      assert x in multiset(rows) && y in multiset(rows);
      var a :| 0 <= a < |rows| && rows[a] == x;
      var b :| 0 <= b < |rows| && rows[b] == y;
      assert x != y;
      assert a < b || b < a;
    }
  }

  lemma DistinctSortedIsStrict(s: seq<DocumentVersionState>, q: Query)
    requires DistinctRows(s) && SortedBy(s, RowOrder(q.sort, q.order))
    ensures StrictlySorted(s, q)
  {
    forall i, j | 0 <= i < j < |s| ensures IsAfter(KeyOf(s[j], q.sort), KeyOf(s[i], q.sort), q.order) {
      assert RowOrder(q.sort, q.order)(s[i], s[j]);
      CursorTestMatchesComparator(KeyOf(s[i], q.sort), KeyOf(s[j], q.sort), q.order);
    }
  }

  /** The answer holds exactly the matching rows, each once, in strict order. */
  lemma AnswerIsSorted(states: seq<DocumentVersionState>, q: Query, hit: SearchHit)
    requires DistinctRows(states)
    ensures StrictlySorted(Answer(states, q, hit), q)
    ensures forall x :: x in Answer(states, q, hit) <==> x in states && MatchesQuery(q, hit, x)
  {
    var kept := Keep(states, Matching(q, hit));
    KeepIsDistinct(states, Matching(q, hit));
    RowOrderIsPreorder(q.sort, q.order);
    SortSorts(kept, RowOrder(q.sort, q.order));
    SortKeepsItems(kept, RowOrder(q.sort, q.order));
    DistinctRowsSurviveSorting(kept, Answer(states, q, hit));
    DistinctSortedIsStrict(Answer(states, q, hit), q);
    forall x ensures x in Answer(states, q, hit) <==> x in states && MatchesQuery(q, hit, x) {
      KeepMembers(states, Matching(q, hit), x);
    }
  }

  /** A strictly sorted sequence is determined by its members. */
  lemma {:induction false} SortedIsUnique(a: seq<DocumentVersionState>, b: seq<DocumentVersionState>, q: Query)
    requires StrictlySorted(a, q) && StrictlySorted(b, q)
    requires forall x :: x in a <==> x in b
    ensures a == b
  {
    assert b != [] ==> b[0] in b;
    if a != [] {
      assert a[0] in b;
      assert b[0] in a;
      if a[0] != b[0] {
        CursorTestMatchesComparator(KeyOf(a[0], q.sort), KeyOf(b[0], q.sort), q.order);
      }
      forall x ensures x in a[1..] <==> x in b[1..] {
        CursorTestMatchesComparator(KeyOf(a[0], q.sort), KeyOf(a[0], q.sort), q.order);
        assert x in a <==> x == a[0] || x in a[1..];
        assert x in b <==> x == b[0] || x in b[1..];
      }
      SortedIsUnique(a[1..], b[1..], q);
    }
  }

  // --- What lies behind a cursor ---

  function Behind(q: Query, after: Option<Keyset>): DocumentVersionState -> bool {
    row => after.Some? ==> IsAfter(KeyOf(row, q.sort), after.value, q.order)
  }

  function Remaining(s: seq<DocumentVersionState>, q: Query, after: Option<Keyset>): seq<DocumentVersionState> {
    Keep(s, Behind(q, after))
  }

  /** What lies behind a cursor is a suffix of the answer, also when the cursor's own row is gone. */
  lemma {:induction false} RemainingIsSuffix(s: seq<DocumentVersionState>, q: Query, after: Option<Keyset>)
    requires StrictlySorted(s, q)
    ensures var r := Remaining(s, q, after); r == s[|s| - |r|..]
  {
    if s != [] {
      RemainingIsSuffix(s[1..], q, after);
      if Behind(q, after)(s[0]) {
        forall i | 0 <= i < |s| ensures Behind(q, after)(s[i]) {
          if after.Some? && i > 0 {
            AfterIsTransitive(after.value, KeyOf(s[0], q.sort), KeyOf(s[i], q.sort), q.order);
          }
        }
        KeepAll(s, Behind(q, after));
      }
    }
  }

  /** A cursor placed on row `n - 1` leaves exactly the rows from `n` on. */
  lemma RemainingAfterRow(s: seq<DocumentVersionState>, q: Query, n: nat)
    requires StrictlySorted(s, q) && 0 < n <= |s|
    ensures Remaining(s, q, Some(KeyOf(s[n - 1], q.sort))) == s[n..]
  {
    var p := Behind(q, Some(KeyOf(s[n - 1], q.sort)));
    forall i | 0 <= i < |s| ensures p(s[i]) <==> n <= i {
      CursorTestMatchesComparator(KeyOf(s[i], q.sort), KeyOf(s[n - 1], q.sort), q.order);
    }
    KeepSuffix(s, p, n);
  }
}
