/** The bounded scan that serves one page, and what following its cursors enumerates. */
module DocumentQuery {
  import opened Sequences
  import opened Contracts
  import opened Pagination
  import Text

  /** Rows one request may look at: MAX_LOOPS batches of INTERNAL_BATCH rows. */
  const SCAN_BUDGET := 1000

  function Encode(q: Query, key: Keyset): Cursor {
    Cursor(1, q, key)
  }

  function Decode(cursor: Cursor, q: Query): Result<Keyset> {
    if cursor.format != 1 then Err(InvalidCursor)
    else if cursor.query.status != q.status then Err(CursorMismatch)
    else if cursor.query.searchQ != q.searchQ then Err(CursorMismatch)
    else if cursor.query.sort != q.sort || cursor.query.order != q.order then Err(CursorMismatch)
    else Ok(cursor.position)
  }

  /** A cursor is accepted exactly by the query that issued it, and gives its position back. */
  lemma CursorRoundTrip(issued: Query, asked: Query, key: Keyset)
    ensures Decode(Encode(issued, key), asked) == if issued == asked then Ok(key) else Err(CursorMismatch)
  {
    if issued.status == asked.status && issued.searchQ == asked.searchQ
       && issued.sort == asked.sort && issued.order == asked.order {
      assert issued == Query(asked.status, asked.searchQ, asked.sort, asked.order);
    }
  }

  /** A search text of white space only counts as no search. */
  function Normalized(q: Query): Query {
    q.(searchQ := if q.searchQ.Some? && Text.Strip(q.searchQ.value) != [] then Some(Text.Strip(q.searchQ.value))
                  else None)
  }

  /** Which rows the asking actor may see; the scan itself does not look any further. */
  type Visibility = DocumentVersionState -> bool

  function Readable(actor: Actor): Visibility {
    row => HasReadAccess(row, actor)
  }

  // --- Reference meaning: a row-by-row scan with a budget ---

  /** Scan from row `at` until `need` readable rows are found, row `stop` is reached or the rows end. */
  function ScanEnd(s: seq<DocumentVersionState>, readable: Visibility, at: nat, need: nat, stop: nat): (end: nat)
    requires at <= |s| && at <= stop
    ensures at <= end <= |s| && end <= stop
    decreases |s| - at
  {
    if at == |s| || need == 0 || at == stop then at
    else ScanEnd(s, readable, at + 1, if readable(s[at]) then need - 1 else need, stop)
  }

  /** The readable rows among those scanned. */
  function Visible(s: seq<DocumentVersionState>, readable: Visibility, p: nat,
                   end: nat): (items: seq<DocumentVersionState>)
    requires p <= end <= |s|
    ensures |items| <= end - p
  {
    if p == end then []
    else Visible(s, readable, p, end - 1) + (if readable(s[end - 1]) then [s[end - 1]] else [])
  }

  function PageEnd(s: seq<DocumentVersionState>, readable: Visibility, p: nat, limit: nat): (end: nat)
    requires p <= |s| && limit > 0
    ensures p <= end <= |s|
    ensures p < |s| ==> p < end
  {
    ScanEnd(s, readable, p, limit, p + SCAN_BUDGET)
  }

  function PageFrom(s: seq<DocumentVersionState>, q: Query, readable: Visibility, p: nat, limit: nat): (page: Page)
    requires p <= |s| && limit > 0
  {
    var end := PageEnd(s, readable, p, limit);
    Page(Visible(s, readable, p, end), limit, if end < |s| then Some(Encode(q, KeyOf(s[end - 1], q.sort))) else None)
  }

  function Position(s: seq<DocumentVersionState>, q: Query, after: Option<Keyset>): nat {
    |s| - |Remaining(s, q, after)|
  }

  /** The running cursor of a scan that began at row `p`: where it began, or the key of the last row looked at. */
  function ScanKey(s: seq<DocumentVersionState>, sort: SortField, start: Option<Keyset>, p: nat,
                   pos: nat): Option<Keyset>
    requires p <= pos <= |s|
  {
    if pos == p then start else Some(KeyOf(s[pos - 1], sort))
  }

  function CheckParams(q: Query, limit: int): Result<()> {
    if q.sort == UnknownSort then Err(InvalidSort)
    else if q.order == UnknownOrder then Err(InvalidOrder)
    else if limit < 1 || limit > 100 then Err(InvalidLimit)
    else Ok(())
  }

  function StartKey(cursor: Option<Cursor>, q: Query): Result<Option<Keyset>> {
    if cursor.None? then Ok(None)
    else match Decode(cursor.value, q)
      case Ok(key) => Ok(Some(key))
      case Err(e) => Err(e)
  }

  /** What a request means: errors first, then the page at the cursor's position in the answer. */
  function Response(states: seq<DocumentVersionState>, hit: SearchHit, actor: Actor, request: Query, limit: int,
                    cursor: Option<Cursor>): Result<Page>
  {
    var q := Normalized(request);
    match CheckParams(q, limit)
    case Err(e) => Err(e)
    case Ok(_) =>
      match StartKey(cursor, q)
      case Err(e) => Err(e)
      case Ok(after) =>
        var s := Answer(states, q, hit);
        Ok(PageFrom(s, q, Readable(actor), Position(s, q, after), limit))
  }

  /** One fetch: up to `limit` rows behind the cursor, and whether there are more. */
  function Batch(s: seq<DocumentVersionState>, q: Query, after: Option<Keyset>, limit: nat): seq<DocumentVersionState> {
    var rest := Remaining(s, q, after);
    if |rest| > limit then rest[..limit] else rest
  }

  predicate HasMore(s: seq<DocumentVersionState>, q: Query, after: Option<Keyset>, limit: nat) {
    |Remaining(s, q, after)| > limit
  }

  lemma BatchIsSlice(rows: seq<DocumentVersionState>, q: Query, after: Option<Keyset>, limit: nat,
                     s: seq<DocumentVersionState>, pos: nat)
    requires pos <= |s| && limit > 0 && Remaining(rows, q, after) == s[pos..]
    ensures var batch := Batch(rows, q, after, limit);
            && pos + |batch| <= |s| && batch == s[pos..pos + |batch|] && |batch| <= limit
            && (HasMore(rows, q, after, limit) <==> pos + |batch| < |s|)
            && (HasMore(rows, q, after, limit) ==> |batch| == limit)
            && (batch == [] <==> pos == |s|)
  {
    assert |s[pos..]| > limit ==> s[pos..][..limit] == s[pos..pos + limit];
    assert s[pos..] == s[pos..|s|];
  }

  /** The running cursor of a scan leaves exactly the rows not scanned yet. */
  lemma ScannedPartIsPassed(s: seq<DocumentVersionState>, q: Query, start: Option<Keyset>, after: Option<Keyset>,
                            p: nat, pos: nat)
    requires StrictlySorted(s, q) && p <= pos <= |s| && p == Position(s, q, start)
    requires after == ScanKey(s, q.sort, start, p, pos)
    ensures Remaining(s, q, after) == s[pos..]
  {
    if pos == p {
      RemainingIsSuffix(s, q, after);
    } else {
      RemainingAfterRow(s, q, pos);
    }
  }

  /** What the store answers behind a scan's running cursor. */
  function LeftAt(states: seq<DocumentVersionState>, hit: SearchHit, q: Query, start: Option<Keyset>,
                  s: seq<DocumentVersionState>, p: nat, pos: nat): seq<DocumentVersionState>
    requires p <= pos <= |s|
  {
    Remaining(Answer(states, q, hit), q, ScanKey(s, q.sort, start, p, pos))
  }

  /** A scan of these rows from row `p` on finds behind its cursor just the rows it has not looked at. */
  ghost predicate Serves(states: seq<DocumentVersionState>, hit: SearchHit, q: Query, start: Option<Keyset>,
                         s: seq<DocumentVersionState>, p: nat)
  {
    && DistinctRows(states) && p <= |s|
    && forall pos {:trigger LeftAt(states, hit, q, start, s, p, pos)} :: p <= pos <= |s| ==>
         LeftAt(states, hit, q, start, s, p, pos) == s[pos..]
  }

  lemma AnswerServes(states: seq<DocumentVersionState>, hit: SearchHit, q: Query, start: Option<Keyset>)
    requires DistinctRows(states)
    ensures var s := Answer(states, q, hit); Serves(states, hit, q, start, s, Position(s, q, start))
  {
    var s := Answer(states, q, hit);
    var p := Position(s, q, start);
    AnswerIsSorted(states, q, hit);
    forall pos | p <= pos <= |s| ensures LeftAt(states, hit, q, start, s, p, pos) == s[pos..] {
      ScannedPartIsPassed(s, q, start, ScanKey(s, q.sort, start, p, pos), p, pos);
    }
  }

  lemma {:induction false} VisibleIsFilter(s: seq<DocumentVersionState>, readable: Visibility, p: nat, end: nat)
    requires p <= end <= |s|
    ensures Visible(s, readable, p, end) == Keep(s[p..end], readable)
  {
    if p < end {
      VisibleIsFilter(s, readable, p, end - 1);
      assert s[p..end] == s[p..end - 1] + [s[end - 1]];
      KeepConcat(s[p..end - 1], [s[end - 1]], readable);
    }
  }

  /** One row further. */
  lemma NextRow(s: seq<DocumentVersionState>, readable: Visibility, sort: SortField, start: Option<Keyset>, p: nat,
                pos: nat)
    requires p <= pos < |s|
    ensures ScanKey(s, sort, start, p, pos + 1) == Some(KeyOf(s[pos], sort))
    ensures Visible(s, readable, p, pos + 1)
            == Visible(s, readable, p, pos) + (if readable(s[pos]) then [s[pos]] else [])
  {
  }

  /** Where a scan may end: at the end of the rows or of the budget, or at the row that fills the page. */
  ghost predicate ScanStops(s: seq<DocumentVersionState>, readable: Visibility, p: nat, limit: nat, pos: nat) {
    && p <= pos <= |s| && pos <= p + SCAN_BUDGET
    && (pos > p ==> |Visible(s, readable, p, pos - 1)| < limit)
    && (pos == |s| || pos == p + SCAN_BUDGET || |Visible(s, readable, p, pos)| >= limit)
  }

  lemma {:induction false} VisibleGrows(s: seq<DocumentVersionState>, readable: Visibility, p: nat, a: nat, b: nat)
    requires p <= a <= b <= |s|
    ensures |Visible(s, readable, p, a)| <= |Visible(s, readable, p, b)|
  {
    if a < b {
      VisibleGrows(s, readable, p, a, b - 1);
    }
  }

  lemma {:induction false} ScanReaches(s: seq<DocumentVersionState>, readable: Visibility, p: nat, limit: nat,
                                       at: nat, pos: nat)
    requires ScanStops(s, readable, p, limit, pos) && p <= at <= pos && |Visible(s, readable, p, at)| <= limit
    ensures ScanEnd(s, readable, at, limit - |Visible(s, readable, p, at)|, p + SCAN_BUDGET) == pos
    decreases pos - at
  {
    if at < pos {
      VisibleGrows(s, readable, p, at, pos - 1);
      ScanReaches(s, readable, p, limit, at + 1, pos);
    }
  }

  /** A scan can stop in one place only. */
  lemma ScanStopsOnce(s: seq<DocumentVersionState>, readable: Visibility, p: nat, limit: nat, pos: nat)
    requires limit > 0 && ScanStops(s, readable, p, limit, pos)
    ensures pos == PageEnd(s, readable, p, limit)
  {
    ScanReaches(s, readable, p, limit, p, pos);
  }

  /** A cursor taken from a full page points at the last row looked at, with more behind it; without one, whether rows
      are left is known. */
  ghost predicate CursorFits(s: seq<DocumentVersionState>, q: Query, pos: nat, nextCursor: Option<Cursor>,
                             hasMore: bool)
    requires pos <= |s|
  {
    match nextCursor
    case Some(cursor) => 0 < pos < |s| && cursor == Encode(q, KeyOf(s[pos - 1], q.sort))
    case None => hasMore <==> pos < |s|
  }

  class DocumentsService {
    const searchHit: SearchHit
    const usesRepository: bool
    var states: seq<DocumentVersionState>

    constructor (hit: SearchHit, usesRepository: bool)
      ensures searchHit == hit && this.usesRepository == usesRepository && states == []
    {
      searchHit := hit;
      this.usesRepository := usesRepository;
      states := [];
    }

    /** In-memory batch: filter, sort, drop what the cursor has passed, cut. */
    method QueryInMemory(q: Query, limit: nat, after: Option<Keyset>)
      returns (batch: seq<DocumentVersionState>, hasMore: bool)
      ensures batch == Batch(Answer(states, q, searchHit), q, after, limit)
      ensures hasMore == HasMore(Answer(states, q, searchHit), q, after, limit)
    {
      var rows := [];
      for i := 0 to |states|
        invariant rows == Keep(states[..i], Matching(q, searchHit))
      {
        KeepConcat(states[..i], [states[i]], Matching(q, searchHit));
        assert states[..i + 1] == states[..i] + [states[i]];
        if q.status.Some? && states[i].status != q.status.value {
          continue;
        }
        if q.searchQ.Some? && !searchHit(q.searchQ.value, states[i]) {
          continue;
        }
        rows := rows + [states[i]];
      }
      assert states[..|states|] == states;
      rows := Sort(rows, RowOrder(q.sort, q.order));
      if after.Some? {
        rows := Keep(rows, Behind(q, after));
      } else {
        KeepAll(rows, Behind(q, after));
      }
      hasMore := |rows| > limit;
      batch := if |rows| > limit then rows[..limit] else rows;
    }

    /** Repository batch: the cursor test is part of the selection, and one extra row is fetched. */
    method QueryRepository(q: Query, limit: nat, after: Option<Keyset>)
      returns (batch: seq<DocumentVersionState>, hasMore: bool)
      requires DistinctRows(states) && limit > 0
      ensures batch == Batch(Answer(states, q, searchHit), q, after, limit)
      ensures hasMore == HasMore(Answer(states, q, searchHit), q, after, limit)
    {
      var selected := Keep(Keep(states, Matching(q, searchHit)), Behind(q, after));
      var rows := Sort(selected, RowOrder(q.sort, q.order));
      SelectThenSort(states, q, searchHit, after);
      var fetchLimit := (if limit > 1 then limit else 1) + 1;
      var fetched := if |rows| > fetchLimit then rows[..fetchLimit] else rows;
      hasMore := |fetched| > limit;
      batch := if |fetched| > limit then fetched[..limit] else fetched;
      assert |rows| > limit ==> fetched[..limit] == rows[..limit];
    }

    method FetchBatch(q: Query, limit: nat, after: Option<Keyset>, ghost s: seq<DocumentVersionState>,
                      ghost start: Option<Keyset>,
                      ghost p: nat, ghost pos: nat)
      returns (batch: seq<DocumentVersionState>, hasMore: bool)
      requires limit > 0 && Serves(states, searchHit, q, start, s, p)
      requires p <= pos <= |s| && after == ScanKey(s, q.sort, start, p, pos)
      ensures pos + |batch| <= |s| && |batch| <= limit && batch == s[pos..pos + |batch|]
      ensures hasMore <==> pos + |batch| < |s|
      ensures hasMore ==> |batch| == limit
      ensures batch == [] <==> pos == |s|
    {
      if usesRepository {
        batch, hasMore := QueryRepository(q, limit, after);
      } else {
        batch, hasMore := QueryInMemory(q, limit, after);
      }
      assert LeftAt(states, searchHit, q, start, s, p, pos) == s[pos..];
      BatchIsSlice(Answer(states, q, searchHit), q, after, limit, s, pos);
    }

    /** One batch, row by row: the cursor moves past every row, readable ones are collected up to the limit. */
    method ConsumeBatch(batch: seq<DocumentVersionState>, readable: Visibility, sort: SortField, limit: nat,
                        collected: seq<DocumentVersionState>, key: Option<Keyset>, ghost start: Option<Keyset>,
                        ghost s: seq<DocumentVersionState>, ghost p: nat, ghost base: nat)
      returns (visible: seq<DocumentVersionState>, after: Option<Keyset>, batchExhausted: bool, ghost pos: nat)
      requires p <= base && base + |batch| <= |s| && forall i :: 0 <= i < |batch| ==> batch[i] == s[base + i]
      requires collected == Visible(s, readable, p, base) && |collected| < limit
      requires key == ScanKey(s, sort, start, p, base)
      ensures base <= pos <= base + |batch| && visible == Visible(s, readable, p, pos) && |visible| <= limit
      ensures batch != [] ==> pos > base
      ensures after == ScanKey(s, sort, start, p, pos)
      ensures |visible| < limit ==> pos == base + |batch|
      ensures |visible| == limit ==> pos > base && readable(s[pos - 1]) && visible[|visible| - 1] == s[pos - 1]
      ensures batchExhausted <==> pos == base + |batch|
    {
      visible, after, batchExhausted, pos := collected, key, true, base;
      for index := 0 to |batch|
        invariant pos == base + index
        invariant after == ScanKey(s, sort, start, p, pos)
        invariant visible == Visible(s, readable, p, pos) && |visible| < limit
        invariant batchExhausted
      {
        var row := batch[index];
        NextRow(s, readable, sort, start, p, pos);
        after := Some(KeyOf(row, sort));
        pos := pos + 1;
        if !readable(row) {
          continue;
        }
        visible := visible + [row];
        if |visible| >= limit {
          batchExhausted := index == |batch| - 1;
          break;
        }
      }
    }

    method QueryDocumentVersionsForActor(actor: Actor, request: Query, limit: int, cursor: Option<Cursor>)
      returns (r: Result<Page>)
      requires DistinctRows(states)
      ensures r == Response(states, searchHit, actor, request, limit, cursor)
    {
      var q := Normalized(request);
      var checked := CheckParams(q, limit);
      if checked.Err? {
        return Err(checked.error);
      }
      var start := StartKey(cursor, q);
      if start.Err? {
        return Err(start.error);
      }
      ghost var s := Answer(states, q, searchHit);
      AnswerServes(states, searchHit, q, start.value);
      var page := ScanPage(Readable(actor), q, limit, start.value, s, Position(s, q, start.value));
      r := Ok(page);
    }

    /** One fetched batch taken in, and whether it was the last. */
    method TakeBatch(readable: Visibility, q: Query, limit: nat, batch: seq<DocumentVersionState>, hasMore: bool,
                     collected: seq<DocumentVersionState>, key: Option<Keyset>,
                     ghost start: Option<Keyset>, ghost s: seq<DocumentVersionState>, ghost p: nat, ghost base: nat)
      returns (visible: seq<DocumentVersionState>, after: Option<Keyset>, nextCursor: Option<Cursor>, last: bool,
               ghost pos: nat)
      requires p <= base && base + |batch| <= |s| && batch == s[base..base + |batch|] && batch != []
      requires hasMore <==> base + |batch| < |s|
      requires collected == Visible(s, readable, p, base) && |collected| < limit
      requires key == ScanKey(s, q.sort, start, p, base)
      ensures base < pos <= base + |batch|
      ensures visible == Visible(s, readable, p, pos) && after == ScanKey(s, q.sort, start, p, pos)
      ensures |Visible(s, readable, p, pos - 1)| < limit
      ensures last <==> |visible| >= limit || pos == |s|
      ensures !last ==> nextCursor == None && hasMore && pos == base + |batch|
      ensures CursorFits(s, q, pos, nextCursor, hasMore)
    {
      var batchExhausted;
      visible, after, batchExhausted, pos :=
        ConsumeBatch(batch, readable, q.sort, limit, collected, key, start, s, p, base);
      NextRow(s, readable, q.sort, start, p, pos - 1);
      nextCursor, last := JudgeBatch(q, limit, visible, hasMore, batchExhausted, s, pos, base + |batch|);
    }

    /**
     A full page ends the scan and takes its cursor from its last row if rows are left; else it ends with the rows.
     */
    method JudgeBatch(q: Query, limit: nat, visible: seq<DocumentVersionState>, hasMore: bool, batchExhausted: bool,
                      ghost s: seq<DocumentVersionState>, ghost pos: nat, ghost batchEnd: nat)
      returns (nextCursor: Option<Cursor>, last: bool)
      requires 0 < pos <= batchEnd <= |s| && (batchExhausted <==> pos == batchEnd) && (hasMore <==> batchEnd < |s|)
      requires if |visible| < limit then batchExhausted else visible != [] && visible[|visible| - 1] == s[pos - 1]
      ensures last <==> |visible| >= limit || pos == |s|
      ensures !last ==> nextCursor == None && hasMore
      ensures CursorFits(s, q, pos, nextCursor, hasMore)
    {
      nextCursor, last := None, true;
      if |visible| >= limit {
        if hasMore || !batchExhausted {
          nextCursor := Some(Encode(q, KeyOf(visible[|visible| - 1], q.sort)));
        }
        return;
      }
      last := !hasMore;
    }

    /**
     The bounded scan: at most MAX_LOOPS batches, and three ways out: nothing fetched, the page full, nothing left.
     */
    method ScanPage(readable: Visibility, q: Query, limit: nat, start: Option<Keyset>,
                    ghost s: seq<DocumentVersionState>, ghost p: nat)
      returns (page: Page)
      requires limit > 0 && Serves(states, searchHit, q, start, s, p)
      ensures page == PageFrom(s, q, readable, p, limit)
    {
      var after, visible := start, [];
      var nextCursor: Option<Cursor> := None;
      var loops, lastHasMore, last := 0, false, false;
      ghost var pos: nat := p;
      while |visible| < limit && loops < MAX_LOOPS && !last
        invariant 0 <= loops <= MAX_LOOPS && p <= pos <= |s| && pos <= p + INTERNAL_BATCH * loops
        invariant visible == Visible(s, readable, p, pos) && after == ScanKey(s, q.sort, start, p, pos)
        invariant !last ==> |visible| < limit && pos == p + INTERNAL_BATCH * loops
        invariant last ==> |visible| >= limit || pos == |s|
        invariant pos > p ==> |Visible(s, readable, p, pos - 1)| < limit
        invariant loops > 0 ==> CursorFits(s, q, pos, nextCursor, lastHasMore)
        invariant loops == 0 ==> !last
        invariant !last ==> nextCursor == None
        decreases MAX_LOOPS - loops
      {
        loops := loops + 1;
        var batchLimit := if limit - |visible| > 1 then limit - |visible| else 1;
        var fetchSize := if batchLimit > INTERNAL_BATCH then batchLimit else INTERNAL_BATCH;
        fetchSize := if fetchSize > INTERNAL_BATCH then INTERNAL_BATCH else fetchSize;
        var batch, hasMore := FetchBatch(q, fetchSize, after, s, start, p, pos);
        lastHasMore := hasMore;
        if batch == [] {
          lastHasMore, last := false, true;
        } else {
          visible, after, nextCursor, last, pos :=
            TakeBatch(readable, q, limit, batch, hasMore, visible, after, start, s, p, pos);
        }
      }
      ScanStopsOnce(s, readable, p, limit, pos);
      page := ClosePage(q, limit, visible, nextCursor, lastHasMore, after, readable, start, s, p, pos);
    }

    /** After the scan: without a cursor from a full page, unscanned rows still get one. */
    method ClosePage(q: Query, limit: nat, visible: seq<DocumentVersionState>, fullPageCursor: Option<Cursor>,
                     lastHasMore: bool, after: Option<Keyset>, ghost readable: Visibility, ghost start: Option<Keyset>,
                     ghost s: seq<DocumentVersionState>, ghost p: nat, ghost pos: nat)
      returns (page: Page)
      requires p <= |s| && limit > 0 && pos == PageEnd(s, readable, p, limit)
      requires visible == Visible(s, readable, p, pos) && after == ScanKey(s, q.sort, start, p, pos)
      requires CursorFits(s, q, pos, fullPageCursor, lastHasMore)
      ensures page == PageFrom(s, q, readable, p, limit)
    {
      var nextCursor := fullPageCursor;
      if nextCursor == None && lastHasMore && after.Some? {
        nextCursor := Some(Encode(q, after.value));
      }
      page := Page(visible, limit, nextCursor);
    }
  }

  /** Selecting behind the cursor before sorting gives the same rows as dropping after sorting. */
  lemma SelectThenSort(states: seq<DocumentVersionState>, q: Query, hit: SearchHit, after: Option<Keyset>)
    requires DistinctRows(states)
    ensures Sort(Keep(Keep(states, Matching(q, hit)), Behind(q, after)), RowOrder(q.sort, q.order))
            == Remaining(Answer(states, q, hit), q, after)
  {
    var s := Answer(states, q, hit);
    var matching := Keep(states, Matching(q, hit));
    var selected := Keep(matching, Behind(q, after));
    var le := RowOrder(q.sort, q.order);
    AnswerIsSorted(states, q, hit);
    RemainingIsSuffix(s, q, after);
    KeepIsDistinct(states, Matching(q, hit));
    KeepIsDistinct(matching, Behind(q, after));
    RowOrderIsPreorder(q.sort, q.order);
    SortSorts(selected, le);
    SortKeepsItems(selected, le);
    DistinctRowsSurviveSorting(selected, Sort(selected, le));
    DistinctSortedIsStrict(Sort(selected, le), q);
    forall x ensures x in Sort(selected, le) <==> x in Remaining(s, q, after) {
      KeepMembers(matching, Behind(q, after), x);
      KeepMembers(s, Behind(q, after), x);
      KeepMembers(states, Matching(q, hit), x);
    }
    SortedIsUnique(Sort(selected, le), Remaining(s, q, after), q);
  }

  // --- Following cursors ---

  /** A page's cursor decodes, lies strictly behind the one asked with, and leaves exactly the unscanned rows. */
  lemma CursorAdvances(s: seq<DocumentVersionState>, q: Query, readable: Visibility, after: Option<Keyset>, limit: nat)
    requires StrictlySorted(s, q) && limit > 0
    requires PageFrom(s, q, readable, Position(s, q, after), limit).nextCursor.Some?
    ensures var p := Position(s, q, after);
            var end := PageEnd(s, readable, p, limit);
            var cursor := PageFrom(s, q, readable, p, limit).nextCursor.value;
            && p < end < |s|
            && Decode(cursor, q) == Ok(cursor.position)
            && (after.Some? ==> IsAfter(cursor.position, after.value, q.order))
            && Remaining(s, q, Some(cursor.position)) == s[end..]
            && |Remaining(s, q, Some(cursor.position))| < |Remaining(s, q, after)|
  {
    var p := Position(s, q, after);
    var end := PageEnd(s, readable, p, limit);
    CursorRoundTrip(q, q, KeyOf(s[end - 1], q.sort));
    RemainingAfterRow(s, q, end);
    RowAtIsBehind(s, q, after, end - 1);
  }

  lemma RowAtIsBehind(s: seq<DocumentVersionState>, q: Query, after: Option<Keyset>, i: nat)
    requires StrictlySorted(s, q) && Position(s, q, after) <= i < |s|
    ensures after.Some? ==> IsAfter(KeyOf(s[i], q.sort), after.value, q.order)
  {
    RemainingIsSuffix(s, q, after);
    assert s[i] == Remaining(s, q, after)[i - Position(s, q, after)];
    KeepMembers(s, Behind(q, after), s[i]);
  }

  /** What one page and the answers behind it come to, given that following the cursor behaves. */
  lemma PageThenRest(s: seq<DocumentVersionState>, q: Query, readable: Visibility, after: Option<Keyset>, limit: nat)
    requires StrictlySorted(s, q) && limit > 0
    ensures var page := PageFrom(s, q, readable, Position(s, q, after), limit);
            Keep(Remaining(s, q, after), readable)
            == page.items + (if page.nextCursor.None? then []
                             else Keep(Remaining(s, q, Some(page.nextCursor.value.position)), readable))
  {
    var p := Position(s, q, after);
    var end := PageEnd(s, readable, p, limit);
    assert Remaining(s, q, after) == s[p..] by { RemainingIsSuffix(s, q, after); }
    SplitVisible(s, readable, p, end);
    if PageFrom(s, q, readable, p, limit).nextCursor.Some? {
      CursorAdvances(s, q, readable, after, limit);
    } else {
      assert s[end..] == [];
    }
  }

  predicate Answerable(request: Query, limit: int, cursor: Option<Cursor>) {
    CheckParams(Normalized(request), limit).Ok? && StartKey(cursor, Normalized(request)).Ok?
  }

  function Unseen(states: seq<DocumentVersionState>, hit: SearchHit, request: Query, limit: int,
                  cursor: Option<Cursor>):
      seq<DocumentVersionState>
    requires Answerable(request, limit, cursor)
  {
    var q := Normalized(request);
    Remaining(Answer(states, q, hit), q, StartKey(cursor, q).value)
  }

  /** The cursor of a page is one the same request may be asked with, and leaves less. */
  lemma NextRequestIsAnswerable(states: seq<DocumentVersionState>, hit: SearchHit, actor: Actor, request: Query,
                                limit: int,
                                cursor: Option<Cursor>)
    requires DistinctRows(states) && Answerable(request, limit, cursor)
    requires Response(states, hit, actor, request, limit, cursor).value.nextCursor.Some?
    ensures var next := Response(states, hit, actor, request, limit, cursor).value.nextCursor;
            && Answerable(request, limit, next) && StartKey(next, Normalized(request)) == Ok(Some(next.value.position))
            && |Unseen(states, hit, request, limit, next)| < |Unseen(states, hit, request, limit, cursor)|
  {
    var q := Normalized(request);
    AnswerIsSorted(states, q, hit);
    CursorAdvances(Answer(states, q, hit), q, Readable(actor), StartKey(cursor, q).value, limit);
  }

  /** All items a client sees that repeats its request with the cursor of the last answer until there is none. */
  function Follow(states: seq<DocumentVersionState>, hit: SearchHit, actor: Actor, request: Query, limit: int,
                  cursor: Option<Cursor>): (items: seq<DocumentVersionState>)
    requires DistinctRows(states) && Answerable(request, limit, cursor)
    decreases |Unseen(states, hit, request, limit, cursor)|
  {
    var page := Response(states, hit, actor, request, limit, cursor).value;
    if page.nextCursor.None? then page.items
    else
      NextRequestIsAnswerable(states, hit, actor, request, limit, cursor);
      page.items + Follow(states, hit, actor, request, limit, page.nextCursor)
  }

  /** Following cursors from any position yields the readable rest of the answer: nothing lost, nothing twice. */
  lemma {:induction false} FollowIsComplete(states: seq<DocumentVersionState>, hit: SearchHit, actor: Actor,
                                            request: Query,
                                            limit: int, cursor: Option<Cursor>)
    requires DistinctRows(states) && Answerable(request, limit, cursor)
    ensures Follow(states, hit, actor, request, limit, cursor)
            == Keep(Unseen(states, hit, request, limit, cursor), Readable(actor))
    decreases |Unseen(states, hit, request, limit, cursor)|
  {
    var q := Normalized(request);
    AnswerIsSorted(states, q, hit);
    PageThenRest(Answer(states, q, hit), q, Readable(actor), StartKey(cursor, q).value, limit);
    var next := Response(states, hit, actor, request, limit, cursor).value.nextCursor;
    if next.Some? {
      NextRequestIsAnswerable(states, hit, actor, request, limit, cursor);
      FollowIsComplete(states, hit, actor, request, limit, next);
    }
  }

  lemma SplitVisible(s: seq<DocumentVersionState>, readable: Visibility, p: nat, end: nat)
    requires p <= end <= |s|
    ensures Keep(s[p..], readable) == Visible(s, readable, p, end) + Keep(s[end..], readable)
  {
    VisibleIsFilter(s, readable, p, end);
    KeepConcat(s[p..end], s[end..], readable);
    assert s[p..] == s[p..end] + s[end..];
  }

  /** The whole enumeration, for any store, actor, filter, sort, order and page size, starting without a cursor. */
  lemma PaginationEnumeratesReadableAnswer(states: seq<DocumentVersionState>, hit: SearchHit, actor: Actor,
                                           request: Query, limit: int)
    requires DistinctRows(states) && CheckParams(Normalized(request), limit).Ok?
    ensures var q, all := Normalized(request), Follow(states, hit, actor, request, limit, None);
            && StrictlySorted(all, q)
            && forall x :: x in all <==> x in states && MatchesQuery(q, hit, x) && HasReadAccess(x, actor)
  {
    var q := Normalized(request);
    var s := Answer(states, q, hit);
    AnswerIsSorted(states, q, hit);
    FollowIsComplete(states, hit, actor, request, limit, None);
    KeepAll(s, Behind(q, None));
    KeepIsSorted(s, q, Readable(actor));
    forall x ensures x in Keep(s, Readable(actor)) <==> x in s && HasReadAccess(x, actor) {
      KeepMembers(s, Readable(actor), x);
    }
  }

  // --- The same on the rows' own fields ---

  /** The moment a listing by update time goes by: the last update, else the last event, else the creation. */
  ghost predicate IsListedAt(x: DocumentVersionState, moment: string) {
    && (x.updatedAt.Some? ==> x.updatedAt == Some(moment))
    && (x.updatedAt.None? && x.lastEventAt.Some? ==> x.lastEventAt == Some(moment))
    && (x.updatedAt.None? && x.lastEventAt.None? && x.createdAt.Some? ==> x.createdAt == Some(moment))
    && (x.updatedAt.None? && x.lastEventAt.None? && x.createdAt.None? ==> moment == "")
  }

  /** The place of a status in the alphabet of the stored words. */
  function AlphabeticPlace(s: DocumentStatus): nat {
    match s
    case Approved => 0
    case Archived => 1
    case Draft => 2
    case InApproval => 3
    case InProgress => 4
    case InReview => 5
    case Planned => 6
  }

  lemma WordsInAlphabeticOrder(a: DocumentStatus, b: DocumentStatus)
    ensures Text.Less(StatusValue(a), StatusValue(b)) <==> AlphabeticPlace(a) < AlphabeticPlace(b)
  {
    StatusWordsSpelled();
    var x, y := StatusValue(a), StatusValue(b);
    if a == b {
      Text.LessIsIrreflexive(x);
    } else if x[0] != y[0] {
      Text.LessAt(x, y, 0);
    } else if x[1] != y[1] {
      Text.LessAt(x, y, 1);
    } else {
      assert x[..3] == "IN_" && y[..3] == "IN_";
      Text.LessAt(x, y, 3);
    }
  }

  /** Documents in order of their ids, and versions of one document in order of their numbers. */
  ghost predicate ByIdentity(x: DocumentVersionState, y: DocumentVersionState) {
    Text.Less(x.documentId, y.documentId) || (x.documentId == y.documentId && x.version < y.version)
  }

  /** First by a text, upwards or downwards, and by identity where the texts are equal. */
  ghost predicate InOrder(a: string, b: string, order: SortOrder, x: DocumentVersionState, y: DocumentVersionState) {
    if a == b then ByIdentity(x, y) else if order == Desc then Text.Less(b, a) else Text.Less(a, b)
  }

  lemma SortedRowsByFields(all: seq<DocumentVersionState>, q: Query, i: nat, j: nat)
    requires StrictlySorted(all, q) && i < j < |all|
    ensures var x, y := all[i], all[j];
            && (q.sort == Title ==> InOrder(x.title, y.title, q.order, x, y))
            && (q.sort == Status ==>
                  if x.status == y.status then ByIdentity(x, y)
                  else if q.order == Desc then AlphabeticPlace(y.status) < AlphabeticPlace(x.status)
                  else AlphabeticPlace(x.status) < AlphabeticPlace(y.status))
            && (q.sort == UpdatedAt ==>
                  forall a, b :: IsListedAt(x, a) && IsListedAt(y, b) ==> InOrder(a, b, q.order, x, y))
  {
    var x, y := all[i], all[j];
    assert IsAfter(KeyOf(y, q.sort), KeyOf(x, q.sort), q.order);
    if q.sort == Status {
      WordsInAlphabeticOrder(x.status, y.status);
      WordsInAlphabeticOrder(y.status, x.status);
      if StatusValue(x.status) == StatusValue(y.status) {
        SameWordSameStatus(x.status, y.status);
      }
    }
  }

  lemma SameWordSameStatus(a: DocumentStatus, b: DocumentStatus)
    requires StatusValue(a) == StatusValue(b)
    ensures a == b
  {
    StatusWordsSpelled();
    WordsInAlphabeticOrder(a, b);
    WordsInAlphabeticOrder(b, a);
    Text.LessIsIrreflexive(StatusValue(a));
  }

  /** A row is listed: it is stored, has the status asked for, is hit by the search, and the actor may read it. */
  ghost predicate IsListed(x: DocumentVersionState, states: seq<DocumentVersionState>, hit: SearchHit, actor: Actor,
                           request: Query) {
    && x in states
    && (request.status.Some? ==> x.status == request.status.value)
    && (request.searchQ.Some? && Text.Strip(request.searchQ.value) != "" ==>
          hit(Text.Strip(request.searchQ.value), x))
    && MayRead(x, actor)
  }

  /** The whole enumeration again, without the keys: which rows, and in which order. */
  lemma EnumerationByFields(states: seq<DocumentVersionState>, hit: SearchHit, actor: Actor, request: Query, limit: int)
    requires DistinctRows(states)
    requires request.sort != UnknownSort && request.order != UnknownOrder && 1 <= limit <= 100
    ensures var all := Follow(states, hit, actor, request, limit, None);
            && (forall x :: x in all <==> IsListed(x, states, hit, actor, request))
            && forall i, j :: 0 <= i < j < |all| ==>
                 && (request.sort == Title ==> InOrder(all[i].title, all[j].title, request.order, all[i], all[j]))
                 && (request.sort == Status ==>
                       if all[i].status == all[j].status then ByIdentity(all[i], all[j])
                       else if request.order == Desc then
                         AlphabeticPlace(all[j].status) < AlphabeticPlace(all[i].status)
                       else AlphabeticPlace(all[i].status) < AlphabeticPlace(all[j].status))
                 && (request.sort == UpdatedAt ==>
                       forall a, b :: IsListedAt(all[i], a) && IsListedAt(all[j], b) ==>
                         InOrder(a, b, request.order, all[i], all[j]))
  {
    var all := Follow(states, hit, actor, request, limit, None);
    PaginationEnumeratesReadableAnswer(states, hit, actor, request, limit);
    forall x ensures x in all <==> IsListed(x, states, hit, actor, request) {
      ReadAccessMeansMayRead(x, actor);
    }
    forall i, j | 0 <= i < j < |all|
      ensures request.sort == Title ==> InOrder(all[i].title, all[j].title, request.order, all[i], all[j])
      ensures request.sort == Status ==>
                if all[i].status == all[j].status then ByIdentity(all[i], all[j])
                else if request.order == Desc then AlphabeticPlace(all[j].status) < AlphabeticPlace(all[i].status)
                else AlphabeticPlace(all[i].status) < AlphabeticPlace(all[j].status)
      ensures request.sort == UpdatedAt ==>
                forall a, b :: IsListedAt(all[i], a) && IsListedAt(all[j], b) ==>
                  InOrder(a, b, request.order, all[i], all[j])
    {
      SortedRowsByFields(all, Normalized(request), i, j);
    }
  }

  /** What a request is refused for, in this order: its sort field, its order, its limit, its cursor. */
  lemma RefusalsByFields(states: seq<DocumentVersionState>, hit: SearchHit, actor: Actor, request: Query, limit: int,
                         cursor: Option<Cursor>)
    ensures var r := Response(states, hit, actor, request, limit, cursor);
            if request.sort == UnknownSort then r == Err(InvalidSort)
            else if request.order == UnknownOrder then r == Err(InvalidOrder)
            else if limit < 1 || limit > 100 then r == Err(InvalidLimit)
            else if cursor.Some? && cursor.value.format != 1 then r == Err(InvalidCursor)
            else if cursor.Some? && !AsksTheSame(cursor.value.query, request) then r == Err(CursorMismatch)
            else r.Ok? && r.value.limit == limit && |r.value.items| <= limit
  {
    var q := Normalized(request);
    if CheckParams(q, limit).Ok? && StartKey(cursor, q).Ok? {
      var s := Answer(states, q, hit);
      ShortPageMeansBudgetSpent(s, q, Readable(actor), Position(s, q, StartKey(cursor, q).value), limit);
    }
  }

  /** A cursor holds the query it was issued for, its search text trimmed and dropped if nothing is left. */
  ghost predicate AsksTheSame(issued: Query, request: Query) {
    && issued.status == request.status && issued.sort == request.sort && issued.order == request.order
    && issued.searchQ == if request.searchQ.None? || Text.Strip(request.searchQ.value) == "" then None
                         else Some(Text.Strip(request.searchQ.value))
  }

  lemma {:induction false} KeepIsSorted(s: seq<DocumentVersionState>, q: Query, p: DocumentVersionState -> bool)
    requires StrictlySorted(s, q)
    ensures StrictlySorted(Keep(s, p), q)
  {
    if s != [] {
      KeepIsSorted(s[1..], q, p);
      forall x | x in Keep(s[1..], p) ensures IsAfter(KeyOf(x, q.sort), KeyOf(s[0], q.sort), q.order) {
        KeepMembers(s[1..], p, x);
      }
    }
  }

  /** A page shorter than the limit that still carries a cursor has used up the whole scan budget. */
  lemma ShortPageMeansBudgetSpent(s: seq<DocumentVersionState>, q: Query, readable: Visibility, p: nat, limit: nat)
    requires p <= |s| && limit > 0
    ensures var page := PageFrom(s, q, readable, p, limit);
            && |page.items| <= limit
            && (|page.items| < limit && page.nextCursor.Some? ==>
                  p + 1000 < |s| && page.nextCursor.value.position == KeyOf(s[p + 999], q.sort))
  {
    ScanStopsForAReason(s, readable, p, p, limit, p + SCAN_BUDGET);
  }

  lemma {:induction false} ScanStopsForAReason(s: seq<DocumentVersionState>, readable: Visibility, p: nat, at: nat,
                                               need: nat, stop: nat)
    requires p <= at <= |s| && at <= stop
    ensures var end := ScanEnd(s, readable, at, need, stop);
            var found := |Visible(s, readable, p, end)| - |Visible(s, readable, p, at)|;
            found <= need && (found == need || end == |s| || end == stop)
    decreases |s| - at
  {
    if at < |s| && need > 0 && at < stop {
      ScanStopsForAReason(s, readable, p, at + 1, if readable(s[at]) then need - 1 else need, stop);
    }
  }
}
