/** Reconciling the comments extracted from a document with the stored ones. */
module CommentSync {
  import opened Sequences
  import opened Text

  datatype CommentStatus = Active | Resolved | Inactive

  datatype Comment = Comment(
    id: nat,
    refNo: string,
    sourceKey: string,
    content: string,
    status: CommentStatus,
    createdAt: string,
    updatedAt: string)

  datatype Extracted = Extracted(sourceKey: string, content: string)

  datatype Outcome = Synced | UniqueViolation

  // --- Reference numbers ---

  function DigitChar(d: nat): char
    requires d < 10
  {
    "0123456789"[d]
  }

  function Decimal(n: nat): (s: string)
    ensures s != ""
  {
    if n < 10 then [DigitChar(n)] else Decimal(n / 10) + [DigitChar(n % 10)]
  }

  function Zeros(n: nat): (s: string)
    ensures |s| == n
  {
    if n == 0 then "" else "0" + Zeros(n - 1)
  }

  /** At least four digits, padded with zeros. */
  function Padded(n: nat): string {
    var s := Decimal(n);
    if |s| < 4 then Zeros(4 - |s|) + s else s
  }

  function ValueOf(s: string): nat
    requires forall i :: 0 <= i < |s| ==> IsDigit(s[i])
  {
    if s == "" then 0 else 10 * ValueOf(s[..|s| - 1]) + DigitValue(s[|s| - 1])
  }

  function ParseNumber(s: string): Option<nat> {
    if s != "" && forall i :: 0 <= i < |s| ==> IsDigit(s[i]) then Some(ValueOf(s)) else None
  }

  lemma {:induction false} DecimalParses(n: nat)
    ensures forall i :: 0 <= i < |Decimal(n)| ==> IsDigit(Decimal(n)[i])
    ensures ValueOf(Decimal(n)) == n
  {
    if n >= 10 {
      DecimalParses(n / 10);
      assert Decimal(n)[..|Decimal(n)| - 1] == Decimal(n / 10);
    }
  }

  lemma {:induction false} LeadingZerosDoNotMatter(k: nat, s: string)
    requires forall i :: 0 <= i < |s| ==> IsDigit(s[i])
    ensures forall i :: 0 <= i < |Zeros(k) + s| ==> IsDigit((Zeros(k) + s)[i])
    ensures ValueOf(Zeros(k) + s) == ValueOf(s)
    decreases k, |s|
  {
    ZerosAreDigits(k);
    if s == "" {
      assert Zeros(k) + s == Zeros(k);
    } else {
      LeadingZerosDoNotMatter(k, s[..|s| - 1]);
      assert (Zeros(k) + s)[..|Zeros(k) + s| - 1] == Zeros(k) + s[..|s| - 1];
    }
  }

  lemma {:induction false} ZerosAreDigits(k: nat)
    ensures forall i :: 0 <= i < k ==> Zeros(k)[i] == '0'
    ensures ValueOf(Zeros(k)) == 0
  {
    if k > 0 {
      ZerosAreDigits(k - 1);
      assert Zeros(k)[..k - 1] == Zeros(k - 1);
    }
  }

  /** A reference number reads back, so different numbers give different references. */
  lemma PaddedParses(n: nat)
    ensures ParseNumber(Padded(n)) == Some(n)
  {
    DecimalParses(n);
    if |Decimal(n)| < 4 {
      LeadingZerosDoNotMatter(4 - |Decimal(n)|, Decimal(n));
    }
  }

  /** The number in a reference that carries the version's prefix. */
  function RefNumber(prefix: string, refNo: string): Option<nat> {
    if prefix <= refNo then ParseNumber(refNo[|prefix|..]) else None
  }

  function Highest(prefix: string, rows: seq<Comment>): nat {
    if rows == [] then 0
    else
      var front := Highest(prefix, rows[..|rows| - 1]);
      var last := RefNumber(prefix, rows[|rows| - 1].refNo);
      if last.Some? && last.value > front then last.value else front
  }

  ghost predicate RefsBelow(prefix: string, rows: seq<Comment>, bound: nat) {
    forall i :: 0 <= i < |rows| && RefNumber(prefix, rows[i].refNo).Some? ==>
        RefNumber(prefix, rows[i].refNo).value < bound
  }

  lemma {:induction false} DecimalLeads(n: nat)
    ensures n >= 10 ==> Decimal(n)[0] != '0'
  {
    if n >= 100 {
      DecimalLeads(n / 10);
    }
  }

  /** At least four digits wide, with leading zeros only up to that width. */
  lemma PaddedWidth(n: nat)
    ensures |Padded(n)| >= 4 && (|Padded(n)| > 4 ==> Padded(n)[0] != '0')
    ensures forall i :: 0 <= i < |Padded(n)| ==> '0' <= Padded(n)[i] <= '9'
  {
    PaddedParses(n);
    if n >= 10 {
      DecimalLeads(n);
    }
  }

  /** The highest number is one in use, or zero. */
  lemma {:induction false} HighestIsReached(prefix: string, rows: seq<Comment>)
    ensures Highest(prefix, rows) == 0
            || exists i :: 0 <= i < |rows| && RefNumber(prefix, rows[i].refNo) == Some(Highest(prefix, rows))
  {
    if rows != [] {
      HighestIsReached(prefix, rows[..|rows| - 1]);
    }
  }

  lemma {:induction false} HighestBounds(prefix: string, rows: seq<Comment>)
    ensures RefsBelow(prefix, rows, Highest(prefix, rows) + 1)
  {
    if rows != [] {
      var front := rows[..|rows| - 1];
      HighestBounds(prefix, front);
      forall i | 0 <= i < |rows| && RefNumber(prefix, rows[i].refNo).Some?
        ensures RefNumber(prefix, rows[i].refNo).value < Highest(prefix, rows) + 1
      {
        assert i < |front| ==> front[i] == rows[i];
      }
    }
  }

  // --- Matching and storing ---

  type Identity = string -> Option<(string, string)>

  function WithIdentity(identity: Identity, wanted: (string, string)): Comment -> bool {
    (c: Comment) => identity(c.sourceKey) == Some(wanted)
  }

  function FindKey(rows: seq<Comment>, key: string): Option<Comment> {
    if rows == [] then None else if rows[0].sourceKey == key then Some(rows[0]) else FindKey(rows[1..], key)
  }

  /** The same key, or else the one remaining comment with the same identity. */
  function MatchExisting(key: string, remaining: seq<Comment>, identity: Identity): Option<Comment> {
    if FindKey(remaining, key).Some? then FindKey(remaining, key)
    else if identity(key).None? then None
    else
      var matches := Keep(remaining, WithIdentity(identity, identity(key).value));
      if |matches| == 1 then Some(matches[0]) else None
  }

  function OtherKey(key: string): Comment -> bool {
    (c: Comment) => c.sourceKey != key
  }

  /** Insert or update by id. The source key is unique; reference, creation time and id of a stored row stay. */
  function Upsert(rows: seq<Comment>, c: Comment): Option<seq<Comment>> {
    if exists i :: 0 <= i < |rows| && rows[i].id != c.id && rows[i].sourceKey == c.sourceKey then None
    else if exists i :: 0 <= i < |rows| && rows[i].id == c.id then
      Some(seq(|rows|, i requires 0 <= i < |rows| =>
        if rows[i].id == c.id then c.(refNo := rows[i].refNo, createdAt := rows[i].createdAt) else rows[i]))
    else Some(rows + [c])
  }

  // --- The sync as a function ---

  datatype State = State(rows: seq<Comment>, remaining: seq<Comment>, nextRef: nat, nextId: nat)

  datatype Context = Context(prefix: string, identity: Identity, now: string)

  function SyncOne(s: State, item: Extracted, cx: Context): Option<State> {
    match MatchExisting(item.sourceKey, s.remaining, cx.identity)
    case None =>
      var created := Comment(s.nextId, cx.prefix + Padded(s.nextRef), item.sourceKey, item.content, Active,
                             cx.now, cx.now);
      var rows := Upsert(s.rows, created);
      if rows.None? then None else Some(State(rows.value, s.remaining, s.nextRef + 1, s.nextId + 1))
    case Some(current) =>
      var updated := current.(sourceKey := item.sourceKey, content := item.content, updatedAt := cx.now);
      var rows := Upsert(s.rows, updated);
      if rows.None? then None
      else Some(State(rows.value, Keep(s.remaining, OtherKey(current.sourceKey)), s.nextRef, s.nextId))
  }

  function SyncFrom(s: State, items: seq<Extracted>, at: nat, cx: Context): (State, Outcome)
    requires at <= |items|
    decreases |items| - at
  {
    if at == |items| then (s, Synced)
    else match SyncOne(s, items[at], cx)
      case None => (s, UniqueViolation)
      case Some(next) => SyncFrom(next, items, at + 1, cx)
  }

  function StartState(rows: seq<Comment>, nextId: nat, prefix: string): State {
    State(rows, rows, Highest(prefix, rows) + 1, nextId)
  }

  class CommentSyncService {
    const prefix: string
    const identity: Identity
    var rows: seq<Comment>
    var nextId: nat

    constructor (prefix: string, identity: Identity)
      ensures this.prefix == prefix && this.identity == identity && rows == [] && nextId == 0
    {
      this.prefix := prefix;
      this.identity := identity;
      rows, nextId := [], 0;
    }

    method NextRefIndex(existing: seq<Comment>) returns (next: nat)
      ensures next == Highest(prefix, existing) + 1
    {
      var highest := 0;
      for i := 0 to |existing|
        invariant highest == Highest(prefix, existing[..i])
      {
        assert existing[..i + 1][..i] == existing[..i];
        var number := RefNumber(prefix, existing[i].refNo);
        if number.None? {
          continue;
        }
        highest := if number.value > highest then number.value else highest;
      }
      assert existing[..|existing|] == existing;
      next := highest + 1;
    }

    method SyncDocxComments(items: seq<Extracted>, now: string) returns (outcome: Outcome)
      modifies this`rows, this`nextId
      ensures var cx := Context(prefix, identity, now);
              var (s, o) := SyncFrom(StartState(old(rows), old(nextId), prefix), items, 0, cx);
              rows == s.rows && nextId == s.nextId && outcome == o
    {
      var remaining := rows;
      var nextRef := NextRefIndex(rows);
      ghost var cx := Context(prefix, identity, now);
      ghost var goal := SyncFrom(StartState(rows, nextId, prefix), items, 0, cx);
      for at := 0 to |items|
        invariant goal == SyncFrom(State(rows, remaining, nextRef, nextId), items, at, cx)
      {
        ghost var before := State(rows, remaining, nextRef, nextId);
        var item := items[at];
        var current := MatchExisting(item.sourceKey, remaining, identity);
        var record, restRemaining, refAfter, idAfter;
        if current.None? {
          record := Comment(nextId, prefix + Padded(nextRef), item.sourceKey, item.content, Active, now, now);
          restRemaining, refAfter, idAfter := remaining, nextRef + 1, nextId + 1;
        } else {
          record := current.value.(sourceKey := item.sourceKey, content := item.content, updatedAt := now);
          restRemaining, refAfter, idAfter := Keep(remaining, OtherKey(current.value.sourceKey)), nextRef, nextId;
        }
        var stored := Upsert(rows, record);
        if stored.None? {
          SyncStops(before, items, at, cx);
          return UniqueViolation;
        }
        SyncGoesOn(before, items, at, cx, State(stored.value, restRemaining, refAfter, idAfter));
        rows, remaining, nextRef, nextId := stored.value, restRemaining, refAfter, idAfter;
      }
      outcome := Synced;
    }
  }

  // --- What every sync keeps ---

  ghost predicate DistinctKeys(rows: seq<Comment>) {
    forall i, j :: 0 <= i < j < |rows| ==> rows[i].sourceKey != rows[j].sourceKey
  }

  ghost predicate DistinctRefs(rows: seq<Comment>) {
    forall i, j :: 0 <= i < j < |rows| ==> rows[i].refNo != rows[j].refNo
  }

  ghost predicate DistinctIds(rows: seq<Comment>, nextId: nat) {
    && (forall i, j :: 0 <= i < j < |rows| ==> rows[i].id != rows[j].id)
    && (forall i :: 0 <= i < |rows| ==> rows[i].id < nextId)
  }

  /** The stored comments of a version: ids, source keys and reference numbers are unique. */
  ghost predicate Valid(rows: seq<Comment>, nextId: nat) {
    DistinctIds(rows, nextId) && DistinctKeys(rows) && DistinctRefs(rows)
  }

  /** What no sync may change about a stored comment. */
  ghost predicate SameIdentity(before: Comment, after: Comment) {
    && after.id == before.id && after.refNo == before.refNo
    && after.createdAt == before.createdAt && after.status == before.status
  }

  /** Every stored comment is still there, in place, with its identity; new ones come behind. */
  ghost predicate Preserves(before: seq<Comment>, after: seq<Comment>) {
    |before| <= |after| && forall i :: 0 <= i < |before| ==> SameIdentity(before[i], after[i])
  }

  /** Midway: a row is either not yet visited, or holds the key of an item already processed. */
  ghost predicate Midway(s: State, items: seq<Extracted>, at: nat, prefix: string)
    requires at <= |items|
  {
    && Valid(s.rows, s.nextId)
    && RefsBelow(prefix, s.rows, s.nextRef)
    && (forall c {:trigger c in s.remaining} :: c in s.remaining ==> c in s.rows && !KeyDone(items, at, c.sourceKey))
    && (forall c {:trigger c in s.rows} :: c in s.rows ==> c in s.remaining || KeyDone(items, at, c.sourceKey))
    && (forall k :: 0 <= k < at ==> HasKey(s.rows, items[k].sourceKey))
  }

  ghost predicate KeyDone(items: seq<Extracted>, at: nat, key: string)
    requires at <= |items|
  {
    exists k :: 0 <= k < at && items[k].sourceKey == key
  }

  ghost predicate HasKey(rows: seq<Comment>, key: string) {
    exists i :: 0 <= i < |rows| && rows[i].sourceKey == key
  }

  lemma {:induction false} FindKeyFinds(rows: seq<Comment>, key: string)
    ensures FindKey(rows, key).Some? <==> HasKey(rows, key)
    ensures FindKey(rows, key).Some? ==> FindKey(rows, key).value in rows && FindKey(rows, key).value.sourceKey == key
  {
    if rows != [] {
      FindKeyFinds(rows[1..], key);
      if HasKey(rows, key) && rows[0].sourceKey != key {
        var i :| 0 <= i < |rows| && rows[i].sourceKey == key;
        assert rows[1..][i - 1] == rows[i];
      }
    }
  }

  lemma MatchIsRemaining(key: string, remaining: seq<Comment>, identity: Identity)
    ensures var m := MatchExisting(key, remaining, identity);
            && (m.Some? ==> m.value in remaining)
            && (HasKey(remaining, key) ==> m.Some? && m.value.sourceKey == key)
  {
    FindKeyFinds(remaining, key);
    var m := MatchExisting(key, remaining, identity);
    if m.Some? && FindKey(remaining, key).None? {
      KeepMembers(remaining, WithIdentity(identity, identity(key).value), m.value);
    }
  }

  lemma UpsertReplaces(rows: seq<Comment>, j: nat, c: Comment, nextId: nat)
    requires j < |rows| && rows[j].id == c.id && DistinctIds(rows, nextId)
    requires forall i :: 0 <= i < |rows| && rows[i].sourceKey == c.sourceKey ==> i == j
    ensures Upsert(rows, c) == Some(rows[j := c.(refNo := rows[j].refNo, createdAt := rows[j].createdAt)])
  {
    forall i | 0 <= i < |rows| && rows[i].id == c.id ensures i == j {
      assert i < j || i == j || j < i;
    }
    var replaced := rows[j := c.(refNo := rows[j].refNo, createdAt := rows[j].createdAt)];
    assert Upsert(rows, c).Some?;
    assert Upsert(rows, c).value == replaced;
  }

  lemma RowWithKey(rows: seq<Comment>, key: string) returns (i: nat)
    requires HasKey(rows, key)
    ensures i < |rows| && rows[i].sourceKey == key
  {
    i :| 0 <= i < |rows| && rows[i].sourceKey == key;
  }

  /** An item whose key was already processed collides with the row that took it. */
  lemma DuplicateCollides(s: State, items: seq<Extracted>, at: nat, cx: Context)
    requires at < |items| && Midway(s, items, at, cx.prefix) && KeyDone(items, at, items[at].sourceKey)
    ensures SyncOne(s, items[at], cx) == None
  {
    var key := items[at].sourceKey;
    var k :| 0 <= k < at && items[k].sourceKey == key;
    var holder := RowWithKey(s.rows, items[k].sourceKey);
    var m := MatchExisting(key, s.remaining, cx.identity);
    MatchIsRemaining(key, s.remaining, cx.identity);
    if m.Some? {
      var j :| 0 <= j < |s.rows| && s.rows[j] == m.value;
      assert m.value.sourceKey != key;
      assert j < holder || holder < j;
    }
  }

  /** A stored row whose key no item has taken yet is still to be matched. */
  lemma HolderRemains(s: State, items: seq<Extracted>, at: nat, prefix: string, i: nat)
    requires at <= |items| && Midway(s, items, at, prefix) && i < |s.rows| && !KeyDone(items, at, s.rows[i].sourceKey)
    ensures HasKey(s.remaining, s.rows[i].sourceKey)
  {
    assert s.rows[i] in s.rows;
    var r :| 0 <= r < |s.remaining| && s.remaining[r] == s.rows[i];
  }

  lemma AppendedRowsAreValid(rows: seq<Comment>, nextId: nat, c: Comment, prefix: string, nextRef: nat)
    requires Valid(rows, nextId) && RefsBelow(prefix, rows, nextRef)
    requires c.id == nextId && RefNumber(prefix, c.refNo) == Some(nextRef)
    requires forall i :: 0 <= i < |rows| ==> rows[i].sourceKey != c.sourceKey
    ensures Upsert(rows, c) == Some(rows + [c])
    ensures Valid(rows + [c], nextId + 1) && RefsBelow(prefix, rows + [c], nextRef + 1) && Preserves(rows, rows + [c])
  {
    forall i | 0 <= i < |rows| ensures rows[i].refNo != c.refNo {
      assert RefNumber(prefix, rows[i].refNo) != Some(nextRef);
    }
  }

  lemma NewRefReadsBack(prefix: string, n: nat)
    ensures RefNumber(prefix, prefix + Padded(n)) == Some(n)
  {
    PaddedParses(n);
    assert (prefix + Padded(n))[|prefix|..] == Padded(n);
  }

  lemma AddedKeyIsHeld(rows: seq<Comment>, c: Comment, items: seq<Extracted>, at: nat)
    requires at < |items| && c.sourceKey == items[at].sourceKey
    requires forall k :: 0 <= k < at ==> HasKey(rows, items[k].sourceKey)
    ensures forall k :: 0 <= k < at + 1 ==> HasKey(rows + [c], items[k].sourceKey)
  {
    assert (rows + [c])[|rows|].sourceKey == items[at].sourceKey;
    forall k | 0 <= k < at + 1 ensures HasKey(rows + [c], items[k].sourceKey) {
      if k < at {
        var i := RowWithKey(rows, items[k].sourceKey);
        assert (rows + [c])[i] == rows[i];
      }
    }
  }

  lemma UnmatchedItemIsAdded(s: State, items: seq<Extracted>, at: nat, cx: Context)
    requires at < |items| && Midway(s, items, at, cx.prefix) && !KeyDone(items, at, items[at].sourceKey)
    requires MatchExisting(items[at].sourceKey, s.remaining, cx.identity).None?
    ensures var next := SyncOne(s, items[at], cx);
            next.Some? && Midway(next.value, items, at + 1, cx.prefix) && Preserves(s.rows, next.value.rows)
  {
    var key := items[at].sourceKey;
    var created := Comment(s.nextId, cx.prefix + Padded(s.nextRef), key, items[at].content, Active, cx.now, cx.now);
    MatchIsRemaining(key, s.remaining, cx.identity);
    forall i | 0 <= i < |s.rows| ensures s.rows[i].sourceKey != key {
      if s.rows[i].sourceKey == key {
        HolderRemains(s, items, at, cx.prefix, i);
      }
    }
    NewRefReadsBack(cx.prefix, s.nextRef);
    AppendedRowsAreValid(s.rows, s.nextId, created, cx.prefix, s.nextRef);
    AddedKeyIsHeld(s.rows, created, items, at);
    KeysStayDone(items, at);
    forall c | c in s.remaining ensures c.sourceKey != key {
      var i :| 0 <= i < |s.rows| && s.rows[i] == c;
    }
  }

  lemma KeysStayDone(items: seq<Extracted>, at: nat)
    requires at < |items|
    ensures forall key :: KeyDone(items, at + 1, key) <==> KeyDone(items, at, key) || key == items[at].sourceKey
  {
    forall key ensures KeyDone(items, at + 1, key) <==> KeyDone(items, at, key) || key == items[at].sourceKey {
      if KeyDone(items, at + 1, key) && key != items[at].sourceKey {
        var k :| 0 <= k < at + 1 && items[k].sourceKey == key;
        assert k < at;
      }
    }
  }

  lemma RekeyedRowsAreValid(rows: seq<Comment>, nextId: nat, j: nat, c: Comment, prefix: string, bound: nat)
    requires Valid(rows, nextId) && RefsBelow(prefix, rows, bound)
    requires j < |rows| && SameIdentity(rows[j], c)
    requires forall i :: 0 <= i < |rows| && rows[i].sourceKey == c.sourceKey ==> i == j
    ensures Valid(rows[j := c], nextId) && RefsBelow(prefix, rows[j := c], bound) && Preserves(rows, rows[j := c])
  {
  }

  /** Taking the matched comment off the list keeps the list to exactly the rows not yet visited. */
  lemma RemainingAfterMatch(s: State, items: seq<Extracted>, at: nat, prefix: string, j: nat, c: Comment)
    requires at < |items| && Midway(s, items, at, prefix) && !KeyDone(items, at, items[at].sourceKey)
    requires j < |s.rows| && s.rows[j] in s.remaining && c.sourceKey == items[at].sourceKey
    requires forall i :: 0 <= i < |s.rows| && s.rows[i].sourceKey == items[at].sourceKey ==> i == j
    ensures var rows, remaining := s.rows[j := c], Keep(s.remaining, OtherKey(s.rows[j].sourceKey));
            && (forall r :: r in remaining ==> r in rows && !KeyDone(items, at + 1, r.sourceKey))
            && (forall r :: r in rows ==> r in remaining || KeyDone(items, at + 1, r.sourceKey))
  {
    var rows, remaining := s.rows[j := c], Keep(s.remaining, OtherKey(s.rows[j].sourceKey));
    KeysStayDone(items, at);
    forall r | r in remaining ensures r in rows && !KeyDone(items, at + 1, r.sourceKey) {
      KeepMembers(s.remaining, OtherKey(s.rows[j].sourceKey), r);
      var i :| 0 <= i < |s.rows| && s.rows[i] == r;
      assert rows[i] == r;
    }
    forall r | r in rows ensures r in remaining || KeyDone(items, at + 1, r.sourceKey) {
      var i :| 0 <= i < |rows| && rows[i] == r;
      if i != j {
        assert r in s.rows;
        KeepMembers(s.remaining, OtherKey(s.rows[j].sourceKey), r);
        assert i < j || j < i;
      }
    }
  }

  lemma DoneKeysStayHeld(s: State, items: seq<Extracted>, at: nat, prefix: string, j: nat, c: Comment)
    requires at < |items| && Midway(s, items, at, prefix)
    requires j < |s.rows| && s.rows[j] in s.remaining && c.sourceKey == items[at].sourceKey
    ensures forall k :: 0 <= k < at + 1 ==> HasKey(s.rows[j := c], items[k].sourceKey)
  {
    var rows := s.rows[j := c];
    forall k | 0 <= k < at + 1 ensures HasKey(rows, items[k].sourceKey) {
      if k == at {
        assert rows[j].sourceKey == items[k].sourceKey;
      } else {
        var i := RowWithKey(s.rows, items[k].sourceKey);
        assert KeyDone(items, at, items[k].sourceKey);
        assert rows[i] == s.rows[i];
      }
    }
  }

  /** A matched item replaces the content and key of its comment, in place. */
  lemma MatchedItemReplaces(s: State, items: seq<Extracted>, at: nat, cx: Context) returns (j: nat)
    requires at < |items| && Midway(s, items, at, cx.prefix) && !KeyDone(items, at, items[at].sourceKey)
    requires MatchExisting(items[at].sourceKey, s.remaining, cx.identity).Some?
    ensures j < |s.rows| && s.rows[j] == MatchExisting(items[at].sourceKey, s.remaining, cx.identity).value
    ensures s.rows[j] in s.remaining
    ensures forall i :: 0 <= i < |s.rows| && s.rows[i].sourceKey == items[at].sourceKey ==> i == j
    ensures SyncOne(s, items[at], cx)
            == Some(s.(rows := s.rows[j := s.rows[j].(sourceKey := items[at].sourceKey, content := items[at].content,
                                                      updatedAt := cx.now)],
                       remaining := Keep(s.remaining, OtherKey(s.rows[j].sourceKey))))
  {
    var key := items[at].sourceKey;
    var current := MatchExisting(key, s.remaining, cx.identity).value;
    var updated := current.(sourceKey := key, content := items[at].content, updatedAt := cx.now);
    MatchIsRemaining(key, s.remaining, cx.identity);
    j :| 0 <= j < |s.rows| && s.rows[j] == current;
    KeyHolderIsMatched(s, items, at, cx, j);
    UpsertReplaces(s.rows, j, updated, s.nextId);
  }

  lemma MatchedItemIsUpdated(s: State, items: seq<Extracted>, at: nat, cx: Context)
    requires at < |items| && Midway(s, items, at, cx.prefix) && !KeyDone(items, at, items[at].sourceKey)
    requires MatchExisting(items[at].sourceKey, s.remaining, cx.identity).Some?
    ensures var next := SyncOne(s, items[at], cx);
            next.Some? && Midway(next.value, items, at + 1, cx.prefix) && Preserves(s.rows, next.value.rows)
  {
    var j := MatchedItemReplaces(s, items, at, cx);
    var c := s.rows[j].(sourceKey := items[at].sourceKey, content := items[at].content, updatedAt := cx.now);
    RekeyedRowsAreValid(s.rows, s.nextId, j, c, cx.prefix, s.nextRef);
    RemainingAfterMatch(s, items, at, cx.prefix, j, c);
    DoneKeysStayHeld(s, items, at, cx.prefix, j, c);
  }

  /** If a stored row has the item's own key, it is the matched one. */
  lemma KeyHolderIsMatched(s: State, items: seq<Extracted>, at: nat, cx: Context, j: nat)
    requires at < |items| && Midway(s, items, at, cx.prefix) && !KeyDone(items, at, items[at].sourceKey)
    requires var m := MatchExisting(items[at].sourceKey, s.remaining, cx.identity);
             m.Some? && j < |s.rows| && s.rows[j] == m.value
    ensures forall i :: 0 <= i < |s.rows| && s.rows[i].sourceKey == items[at].sourceKey ==> i == j
  {
    var key := items[at].sourceKey;
    MatchIsRemaining(key, s.remaining, cx.identity);
    forall i | 0 <= i < |s.rows| && s.rows[i].sourceKey == key ensures i == j {
      HolderRemains(s, items, at, cx.prefix, i);
      assert i < j || i == j || j < i;
    }
  }

  lemma StepKeepsMidway(s: State, items: seq<Extracted>, at: nat, cx: Context)
    requires at < |items| && Midway(s, items, at, cx.prefix)
    ensures var next := SyncOne(s, items[at], cx);
            if KeyDone(items, at, items[at].sourceKey) then next.None?
            else next.Some? && Midway(next.value, items, at + 1, cx.prefix) && Preserves(s.rows, next.value.rows)
  {
    if KeyDone(items, at, items[at].sourceKey) {
      DuplicateCollides(s, items, at, cx);
    } else if MatchExisting(items[at].sourceKey, s.remaining, cx.identity).None? {
      UnmatchedItemIsAdded(s, items, at, cx);
    } else {
      MatchedItemIsUpdated(s, items, at, cx);
    }
  }

  /** Whether the items from `at` on bring no key a second time. */
  ghost predicate NoKeyTwice(items: seq<Extracted>, at: nat) {
    forall k :: at <= k < |items| ==> !KeyDone(items, k, items[k].sourceKey)
  }

  lemma PreservesIsTransitive(a: seq<Comment>, b: seq<Comment>, c: seq<Comment>)
    requires Preserves(a, b) && Preserves(b, c)
    ensures Preserves(a, c)
  {
  }

  lemma MidwayIsValid(s: State, items: seq<Extracted>, at: nat, prefix: string)
    requires at <= |items| && Midway(s, items, at, prefix)
    ensures Valid(s.rows, s.nextId) && Preserves(s.rows, s.rows)
  {
  }

  lemma SyncStops(s: State, items: seq<Extracted>, at: nat, cx: Context)
    requires at <= |items| && (at < |items| ==> SyncOne(s, items[at], cx) == None)
    ensures SyncFrom(s, items, at, cx) == (s, if at < |items| then UniqueViolation else Synced)
  {
  }

  lemma SyncGoesOn(s: State, items: seq<Extracted>, at: nat, cx: Context, next: State)
    requires at < |items| && SyncOne(s, items[at], cx) == Some(next)
    ensures SyncFrom(s, items, at, cx) == SyncFrom(next, items, at + 1, cx)
  {
  }

  lemma {:induction false} SyncKeepsValidity(s: State, items: seq<Extracted>, at: nat, cx: Context)
    requires at <= |items| && Midway(s, items, at, cx.prefix)
    ensures var (after, outcome) := SyncFrom(s, items, at, cx);
            Valid(after.rows, after.nextId) && Preserves(s.rows, after.rows)
    decreases |items| - at
  {
    MidwayIsValid(s, items, at, cx.prefix);
    if at == |items| || SyncOne(s, items[at], cx).None? {
      SyncStops(s, items, at, cx);
    } else {
      var next := SyncOne(s, items[at], cx).value;
      StepKeepsMidway(s, items, at, cx);
      SyncKeepsValidity(next, items, at + 1, cx);
      PreservesIsTransitive(s.rows, next.rows, SyncFrom(next, items, at + 1, cx).0.rows);
      SyncGoesOn(s, items, at, cx, next);
    }
  }

  lemma {:induction false} SyncSucceedsUnlessKeyTwice(s: State, items: seq<Extracted>, at: nat, cx: Context)
    requires at <= |items| && Midway(s, items, at, cx.prefix)
    ensures SyncFrom(s, items, at, cx).1 == Synced <==> NoKeyTwice(items, at)
    decreases |items| - at
  {
    if at < |items| {
      StepKeepsMidway(s, items, at, cx);
      if !KeyDone(items, at, items[at].sourceKey) {
        SyncSucceedsUnlessKeyTwice(SyncOne(s, items[at], cx).value, items, at + 1, cx);
      }
    }
  }

  lemma {:induction false} SyncEndsMidway(s: State, items: seq<Extracted>, at: nat, cx: Context)
    requires at <= |items| && Midway(s, items, at, cx.prefix) && SyncFrom(s, items, at, cx).1 == Synced
    ensures Midway(SyncFrom(s, items, at, cx).0, items, |items|, cx.prefix)
    decreases |items| - at
  {
    if at < |items| {
      StepKeepsMidway(s, items, at, cx);
      SyncEndsMidway(SyncOne(s, items[at], cx).value, items, at + 1, cx);
    }
  }

  ghost predicate DistinctItems(items: seq<Extracted>) {
    forall i, k :: 0 <= i < k < |items| ==> items[i].sourceKey != items[k].sourceKey
  }

  /**
   One sync: source keys, references and ids stay unique, existing comments keep their identity, and it succeeds
   exactly when the extracted keys are distinct; then every extracted key is held by a stored comment.
   */
  lemma SyncKeepsComments(rows: seq<Comment>, nextId: nat, items: seq<Extracted>, cx: Context)
    requires Valid(rows, nextId)
    ensures var (after, outcome) := SyncFrom(StartState(rows, nextId, cx.prefix), items, 0, cx);
            && Valid(after.rows, after.nextId) && Preserves(rows, after.rows)
            && (outcome == Synced <==> DistinctItems(items))
            && (outcome == Synced ==> forall k :: 0 <= k < |items| ==> HasKey(after.rows, items[k].sourceKey))
  {
    var start := StartState(rows, nextId, cx.prefix);
    StartIsMidway(rows, nextId, items, cx.prefix);
    SyncKeepsValidity(start, items, 0, cx);
    SyncSucceedsUnlessKeyTwice(start, items, 0, cx);
    DistinctMeansNoKeyTwice(items);
    if SyncFrom(start, items, 0, cx).1 == Synced {
      SyncEndsMidway(start, items, 0, cx);
    }
  }

  lemma StartIsMidway(rows: seq<Comment>, nextId: nat, items: seq<Extracted>, prefix: string)
    requires Valid(rows, nextId)
    ensures Midway(StartState(rows, nextId, prefix), items, 0, prefix)
  {
    HighestBounds(prefix, rows);
  }

  lemma DistinctMeansNoKeyTwice(items: seq<Extracted>)
    ensures DistinctItems(items) <==> NoKeyTwice(items, 0)
  {
    if NoKeyTwice(items, 0) {
      forall i, k | 0 <= i < k < |items| ensures items[i].sourceKey != items[k].sourceKey {
        assert !KeyDone(items, k, items[k].sourceKey);
      }
    }
  }

  // --- What a sync stores ---

  /** No remaining comment has the key, and just this one has the identity the key gives. */
  ghost predicate IsOnlyOne(remaining: seq<Comment>, i: nat, key: string, identity: Identity) {
    && i < |remaining| && identity(key).Some?
    && (forall k :: 0 <= k < |remaining| ==> remaining[k].sourceKey != key)
    && (forall k :: 0 <= k < |remaining| ==> (identity(remaining[k].sourceKey) == identity(key) <==> k == i))
  }

  /** The comment an item belongs to: the remaining one of its key, or else the only one of its identity. */
  ghost predicate BelongsTo(c: Comment, remaining: seq<Comment>, key: string, identity: Identity) {
    || (c in remaining && c.sourceKey == key)
    || (exists i: nat :: IsOnlyOne(remaining, i, key, identity) && remaining[i] == c)
  }

  lemma MatchBelongs(remaining: seq<Comment>, key: string, identity: Identity)
    ensures var m := MatchExisting(key, remaining, identity);
            if m.Some? then BelongsTo(m.value, remaining, key, identity)
            else forall c :: !BelongsTo(c, remaining, key, identity)
  {
    FindKeyFinds(remaining, key);
    if FindKey(remaining, key).None? {
      forall k | 0 <= k < |remaining| ensures remaining[k].sourceKey != key {
      }
      if identity(key).Some? {
        IdentityBelongs(remaining, key, identity);
      }
    }
  }

  lemma IdentityBelongs(remaining: seq<Comment>, key: string, identity: Identity)
    requires identity(key).Some? && forall k :: 0 <= k < |remaining| ==> remaining[k].sourceKey != key
    ensures var matches := Keep(remaining, WithIdentity(identity, identity(key).value));
            if |matches| == 1 then BelongsTo(matches[0], remaining, key, identity)
            else forall c :: !BelongsTo(c, remaining, key, identity)
  {
    var p := WithIdentity(identity, identity(key).value);
    if |Keep(remaining, p)| == 1 {
      var i := OneIsKept(remaining, p);
      forall k | 0 <= k < |remaining| ensures identity(remaining[k].sourceKey) == identity(key) <==> k == i {
        assert p(remaining[k]) <==> k == i;
      }
      assert IsOnlyOne(remaining, i, key, identity);
    } else if c :| BelongsTo(c, remaining, key, identity) {
      var i: nat :| IsOnlyOne(remaining, i, key, identity) && remaining[i] == c;
      forall k | 0 <= k < |remaining| ensures p(remaining[k]) <==> k == i {
      }
      KeepsOne(remaining, p, i);
    }
  }

  /** What one item makes of its comment: key, content and time of the update are new, all else stays. */
  ghost predicate TakenOver(now: Comment, was: Comment, item: Extracted, cx: Context) {
    && now.sourceKey == item.sourceKey && now.content == item.content && now.updatedAt == cx.now
    && now.id == was.id && now.refNo == was.refNo && now.status == was.status && now.createdAt == was.createdAt
  }

  /** What one item makes without a comment: an active one with the next id and number, created now. */
  ghost predicate IsCreated(c: Comment, s: State, item: Extracted, cx: Context) {
    && c.sourceKey == item.sourceKey && c.content == item.content && c.updatedAt == cx.now && c.createdAt == cx.now
    && c.id == s.nextId && c.refNo == cx.prefix + Padded(s.nextRef) && c.status == Active
  }

  /**
   One item whose key has not been met before: the comment it belongs to is taken over in place, and none is created;
   if there is none, one comment is created behind the others, and no other changes.
   */
  lemma ItemIsTakenOverOrCreated(s: State, items: seq<Extracted>, at: nat, cx: Context)
    requires at < |items| && Midway(s, items, at, cx.prefix) && !KeyDone(items, at, items[at].sourceKey)
    ensures var next := SyncOne(s, items[at], cx);
            next.Some?
            && if exists c :: BelongsTo(c, s.remaining, items[at].sourceKey, cx.identity) then
                 && next.value.nextId == s.nextId && next.value.nextRef == s.nextRef
                 && exists j: nat :: IsTakenOverAt(s, next.value.rows, j, items[at], cx)
               else
                 && next.value.nextId == s.nextId + 1 && next.value.nextRef == s.nextRef + 1
                 && |next.value.rows| == |s.rows| + 1 && next.value.rows[..|s.rows|] == s.rows
                 && IsCreated(next.value.rows[|s.rows|], s, items[at], cx)
  {
    var key := items[at].sourceKey;
    MatchBelongs(s.remaining, key, cx.identity);
    if MatchExisting(key, s.remaining, cx.identity).Some? {
      var j := MatchedItemReplaces(s, items, at, cx);
      assert IsTakenOverAt(s, SyncOne(s, items[at], cx).value.rows, j, items[at], cx);
    } else {
      CreatedBehind(s, items, at, cx);
    }
  }

  ghost predicate IsTakenOverAt(s: State, rows: seq<Comment>, j: nat, item: Extracted, cx: Context) {
    && j < |s.rows| == |rows| && BelongsTo(s.rows[j], s.remaining, item.sourceKey, cx.identity)
    && TakenOver(rows[j], s.rows[j], item, cx) && rows == s.rows[j := rows[j]]
  }

  lemma CreatedBehind(s: State, items: seq<Extracted>, at: nat, cx: Context)
    requires at < |items| && Midway(s, items, at, cx.prefix) && !KeyDone(items, at, items[at].sourceKey)
    requires MatchExisting(items[at].sourceKey, s.remaining, cx.identity).None?
    ensures var next := SyncOne(s, items[at], cx);
            && next.Some? && next.value.nextId == s.nextId + 1 && next.value.nextRef == s.nextRef + 1
            && |next.value.rows| == |s.rows| + 1 && next.value.rows[..|s.rows|] == s.rows
            && IsCreated(next.value.rows[|s.rows|], s, items[at], cx)
  {
    var key := items[at].sourceKey;
    var created := Comment(s.nextId, cx.prefix + Padded(s.nextRef), key, items[at].content, Active, cx.now, cx.now);
    MatchIsRemaining(key, s.remaining, cx.identity);
    forall i | 0 <= i < |s.rows| ensures s.rows[i].sourceKey != key {
      if s.rows[i].sourceKey == key {
        HolderRemains(s, items, at, cx.prefix, i);
      }
    }
    NewRefReadsBack(cx.prefix, s.nextRef);
    AppendedRowsAreValid(s.rows, s.nextId, created, cx.prefix, s.nextRef);
  }

  /** A stored comment that says what an item says. */
  ghost predicate Says(c: Comment, item: Extracted, now: string) {
    c.sourceKey == item.sourceKey && c.content == item.content && c.updatedAt == now
  }

  ghost predicate SaysAt(rows: seq<Comment>, i: nat, item: Extracted, now: string) {
    i < |rows| && Says(rows[i], item, now)
  }

  ghost predicate IsStored(rows: seq<Comment>, item: Extracted, now: string) {
    exists i: nat :: SaysAt(rows, i, item, now)
  }

  /** What the first items have made of the comments stored before. */
  ghost predicate StoredSoFar(rows: seq<Comment>, nextId: nat, firstRef: nat, s: State, items: seq<Extracted>, at: nat,
                              cx: Context)
    requires at <= |items|
  {
    && |rows| <= |s.rows| && s.nextId == nextId + |s.rows| - |rows| && s.nextRef == firstRef + |s.rows| - |rows|
    && (forall k :: 0 <= k < at ==> IsStored(s.rows, items[k], cx.now))
    && (forall i :: 0 <= i < |s.rows| ==> RowSoFar(rows, nextId, firstRef, s.rows[i], i, items, at, cx))
  }

  ghost predicate IsNewAt(c: Comment, n: nat, nextId: nat, firstRef: nat, cx: Context) {
    && c.id == nextId + n && c.refNo == cx.prefix + Padded(firstRef + n)
    && c.status == Active && c.createdAt == cx.now && c.updatedAt == cx.now
  }

  /** An old comment is as it was or belongs to an item, a new one is made as new ones are. */
  ghost predicate RowSoFar(rows: seq<Comment>, nextId: nat, firstRef: nat, now: Comment, i: nat,
                           items: seq<Extracted>, at: nat, cx: Context)
    requires at <= |items|
  {
    || (i < |rows| && now == rows[i])
    || (KeyDone(items, at, now.sourceKey) && (i < |rows| || IsNewAt(now, i - |rows|, nextId, firstRef, cx)))
  }

  lemma TakingOverKeepsStored(rows: seq<Comment>, nextId: nat, firstRef: nat, s: State, next: State,
                              items: seq<Extracted>, at: nat, cx: Context, j: nat)
    requires at < |items| && StoredSoFar(rows, nextId, firstRef, s, items, at, cx)
    requires next.nextId == s.nextId && next.nextRef == s.nextRef && IsTakenOverAt(s, next.rows, j, items[at], cx)
    requires !KeyDone(items, at, s.rows[j].sourceKey)
    ensures StoredSoFar(rows, nextId, firstRef, next, items, at + 1, cx)
  {
    KeysStayDone(items, at);
    forall k | 0 <= k < at + 1 ensures IsStored(next.rows, items[k], cx.now) {
      if k == at {
        assert SaysAt(next.rows, j, items[k], cx.now);
      } else {
        var i: nat :| SaysAt(s.rows, i, items[k], cx.now);
        assert KeyDone(items, at, s.rows[i].sourceKey);
        assert SaysAt(next.rows, i, items[k], cx.now);
      }
    }
    forall i | 0 <= i < |next.rows| ensures RowSoFar(rows, nextId, firstRef, next.rows[i], i, items, at + 1, cx) {
      assert RowSoFar(rows, nextId, firstRef, s.rows[i], i, items, at, cx);
    }
  }

  lemma CreatingKeepsStored(rows: seq<Comment>, nextId: nat, firstRef: nat, s: State, next: State,
                            items: seq<Extracted>, at: nat, cx: Context)
    requires at < |items| && StoredSoFar(rows, nextId, firstRef, s, items, at, cx)
    requires next.nextId == s.nextId + 1 && next.nextRef == s.nextRef + 1
    requires |next.rows| == |s.rows| + 1 && next.rows[..|s.rows|] == s.rows
    requires IsCreated(next.rows[|s.rows|], s, items[at], cx)
    ensures StoredSoFar(rows, nextId, firstRef, next, items, at + 1, cx)
  {
    KeysStayDone(items, at);
    forall i | 0 <= i < |s.rows| ensures next.rows[i] == s.rows[i] {
      assert next.rows[i] == next.rows[..|s.rows|][i];
    }
    forall k | 0 <= k < at + 1 ensures IsStored(next.rows, items[k], cx.now) {
      if k == at {
        assert SaysAt(next.rows, |s.rows|, items[k], cx.now);
      } else {
        var i: nat :| SaysAt(s.rows, i, items[k], cx.now);
        assert SaysAt(next.rows, i, items[k], cx.now);
      }
    }
    forall i | 0 <= i < |next.rows| ensures RowSoFar(rows, nextId, firstRef, next.rows[i], i, items, at + 1, cx) {
      if i < |s.rows| {
        assert RowSoFar(rows, nextId, firstRef, s.rows[i], i, items, at, cx);
      }
    }
  }

  lemma StepKeepsStored(rows: seq<Comment>, nextId: nat, firstRef: nat, s: State, items: seq<Extracted>, at: nat,
                        cx: Context)
    requires at < |items| && Midway(s, items, at, cx.prefix) && !KeyDone(items, at, items[at].sourceKey)
    requires StoredSoFar(rows, nextId, firstRef, s, items, at, cx)
    ensures var next := SyncOne(s, items[at], cx);
            next.Some? && StoredSoFar(rows, nextId, firstRef, next.value, items, at + 1, cx)
  {
    ItemIsTakenOverOrCreated(s, items, at, cx);
    var next := SyncOne(s, items[at], cx).value;
    if exists c :: BelongsTo(c, s.remaining, items[at].sourceKey, cx.identity) {
      var j: nat :| IsTakenOverAt(s, next.rows, j, items[at], cx);
      assert s.rows[j] in s.remaining;
      TakingOverKeepsStored(rows, nextId, firstRef, s, next, items, at, cx, j);
    } else {
      CreatingKeepsStored(rows, nextId, firstRef, s, next, items, at, cx);
    }
  }

  lemma {:induction false} SyncStores(rows: seq<Comment>, nextId: nat, firstRef: nat, s: State, items: seq<Extracted>,
                                      at: nat, cx: Context)
    requires at <= |items| && Midway(s, items, at, cx.prefix) && SyncFrom(s, items, at, cx).1 == Synced
    requires StoredSoFar(rows, nextId, firstRef, s, items, at, cx)
    ensures StoredSoFar(rows, nextId, firstRef, SyncFrom(s, items, at, cx).0, items, |items|, cx)
    decreases |items| - at
  {
    if at < |items| {
      StepKeepsMidway(s, items, at, cx);
      StepKeepsStored(rows, nextId, firstRef, s, items, at, cx);
      SyncStores(rows, nextId, firstRef, SyncOne(s, items[at], cx).value, items, at + 1, cx);
    }
  }

  /**
   A sync that succeeds: every extracted comment is stored with its key and content, comments whose key was not
   extracted are as they were, and what is new comes behind with the next ids and reference numbers, active.
   */
  lemma SyncStoresExtraction(rows: seq<Comment>, nextId: nat, items: seq<Extracted>, cx: Context)
    requires Valid(rows, nextId) && SyncFrom(StartState(rows, nextId, cx.prefix), items, 0, cx).1 == Synced
    ensures var after := SyncFrom(StartState(rows, nextId, cx.prefix), items, 0, cx).0;
            ExtractionStored(rows, nextId, Highest(cx.prefix, rows) + 1, after.rows, after.nextId, items, cx)
  {
    var start, firstRef := StartState(rows, nextId, cx.prefix), Highest(cx.prefix, rows) + 1;
    StartIsMidway(rows, nextId, items, cx.prefix);
    StartStores(rows, nextId, firstRef, start, items, cx);
    SyncStores(rows, nextId, firstRef, start, items, 0, cx);
    AllStoredIsStored(rows, nextId, firstRef, SyncFrom(start, items, 0, cx).0, items, cx);
  }

  ghost predicate ExtractionStored(rows: seq<Comment>, nextId: nat, firstRef: nat, after: seq<Comment>,
                                   afterId: nat, items: seq<Extracted>, cx: Context) {
    && |rows| <= |after| && afterId - nextId == |after| - |rows|
    && (forall k :: 0 <= k < |items| ==> IsStored(after, items[k], cx.now))
    && (forall i :: 0 <= i < |rows| ==> after[i] == rows[i] || KeyDone(items, |items|, after[i].sourceKey))
    && (forall i :: |rows| <= i < |after| ==> IsNewAt(after[i], i - |rows|, nextId, firstRef, cx))
  }

  lemma StartStores(rows: seq<Comment>, nextId: nat, firstRef: nat, s: State, items: seq<Extracted>, cx: Context)
    requires s.rows == rows && s.nextId == nextId && s.nextRef == firstRef
    ensures StoredSoFar(rows, nextId, firstRef, s, items, 0, cx)
  {
  }

  lemma AllStoredIsStored(rows: seq<Comment>, nextId: nat, firstRef: nat, s: State, items: seq<Extracted>, cx: Context)
    requires StoredSoFar(rows, nextId, firstRef, s, items, |items|, cx)
    ensures ExtractionStored(rows, nextId, firstRef, s.rows, s.nextId, items, cx)
  {
  }

  datatype Round = Round(items: seq<Extracted>, now: string)

  function Rounds(rows: seq<Comment>, nextId: nat, rounds: seq<Round>, prefix: string,
                  identity: Identity): (seq<Comment>, nat)
    decreases |rounds|
  {
    if rounds == [] then (rows, nextId)
    else
      var cx := Context(prefix, identity, rounds[0].now);
      var s := SyncFrom(StartState(rows, nextId, prefix), rounds[0].items, 0, cx).0;
      Rounds(s.rows, s.nextId, rounds[1..], prefix, identity)
  }

  /** Over every run of syncs, failing ones included. */
  lemma {:induction false} RoundsKeepComments(rows: seq<Comment>, nextId: nat, rounds: seq<Round>, prefix: string,
                                              identity: Identity)
    requires Valid(rows, nextId)
    ensures var (after, id) := Rounds(rows, nextId, rounds, prefix, identity);
            Valid(after, id) && Preserves(rows, after)
    decreases |rounds|
  {
    if rounds != [] {
      var cx := Context(prefix, identity, rounds[0].now);
      SyncKeepsComments(rows, nextId, rounds[0].items, cx);
      var s := SyncFrom(StartState(rows, nextId, prefix), rounds[0].items, 0, cx).0;
      RoundsKeepComments(s.rows, s.nextId, rounds[1..], prefix, identity);
    }
  }

  // --- Repeating an extraction ---

  lemma OtherKeysStay(remaining: seq<Comment>, taken: string, key: string)
    requires HasKey(remaining, key) && key != taken
    ensures HasKey(Keep(remaining, OtherKey(taken)), key)
  {
    var r := RowWithKey(remaining, key);
    KeepMembers(remaining, OtherKey(taken), remaining[r]);
    var kept := Keep(remaining, OtherKey(taken));
    var i :| 0 <= i < |kept| && kept[i] == remaining[r];
  }

  /** The stored comments still hold the keys of all items from `at` on. */
  ghost predicate KeysHeld(remaining: seq<Comment>, items: seq<Extracted>, at: nat) {
    forall k :: at <= k < |items| ==> HasKey(remaining, items[k].sourceKey)
  }

  lemma KeysStayHeld(remaining: seq<Comment>, items: seq<Extracted>, at: nat)
    requires at < |items| && DistinctItems(items) && KeysHeld(remaining, items, at)
    ensures KeysHeld(Keep(remaining, OtherKey(items[at].sourceKey)), items, at + 1)
  {
    forall k | at + 1 <= k < |items|
      ensures HasKey(Keep(remaining, OtherKey(items[at].sourceKey)), items[k].sourceKey)
    {
      OtherKeysStay(remaining, items[at].sourceKey, items[k].sourceKey);
    }
  }

  ghost predicate SameKeys(a: seq<Comment>, b: seq<Comment>) {
    |a| == |b| && forall i :: 0 <= i < |a| ==> b[i].sourceKey == a[i].sourceKey
  }

  lemma NotYetDone(items: seq<Extracted>, at: nat)
    requires at < |items| && DistinctItems(items)
    ensures !KeyDone(items, at, items[at].sourceKey)
  {
  }

  lemma SameKeysTwice(a: seq<Comment>, b: seq<Comment>, c: seq<Comment>)
    requires SameKeys(a, b) && SameKeys(b, c)
    ensures SameKeys(a, c)
  {
  }

  /** One step on a key that is held: the comment is matched directly, and nothing is created or re-keyed. */
  lemma HeldStep(s: State, items: seq<Extracted>, at: nat, cx: Context) returns (next: State)
    requires at < |items| && DistinctItems(items) && Midway(s, items, at, cx.prefix)
    requires KeysHeld(s.remaining, items, at)
    ensures SyncOne(s, items[at], cx) == Some(next) && Midway(next, items, at + 1, cx.prefix)
    ensures KeysHeld(next.remaining, items, at + 1)
    ensures next.nextId == s.nextId && SameKeys(s.rows, next.rows)
  {
    NotYetDone(items, at);
    DirectMatchKeepsKeys(s, items, at, cx);
    KeysStayHeld(s.remaining, items, at);
    StepKeepsMidway(s, items, at, cx);
    next := SyncOne(s, items[at], cx).value;
  }

  lemma {:induction false} HeldKeysAreNotCreated(s: State, items: seq<Extracted>, at: nat, cx: Context)
    requires at <= |items| && DistinctItems(items) && Midway(s, items, at, cx.prefix)
    requires KeysHeld(s.remaining, items, at)
    ensures var (after, outcome) := SyncFrom(s, items, at, cx);
            outcome == Synced && after.nextId == s.nextId && SameKeys(s.rows, after.rows)
    decreases |items| - at
  {
    if at < |items| {
      var next := HeldStep(s, items, at, cx);
      HeldKeysAreNotCreated(next, items, at + 1, cx);
      SyncGoesOn(s, items, at, cx, next);
      SameKeysTwice(s.rows, next.rows, SyncFrom(s, items, at, cx).0.rows);
    }
  }

  lemma DirectMatchKeepsKeys(s: State, items: seq<Extracted>, at: nat, cx: Context)
    requires at < |items| && Midway(s, items, at, cx.prefix) && !KeyDone(items, at, items[at].sourceKey)
    requires HasKey(s.remaining, items[at].sourceKey)
    ensures var next := SyncOne(s, items[at], cx);
            && next.Some? && next.value.nextId == s.nextId && SameKeys(s.rows, next.value.rows)
            && next.value.remaining == Keep(s.remaining, OtherKey(items[at].sourceKey))
  {
    MatchIsRemaining(items[at].sourceKey, s.remaining, cx.identity);
    var j := MatchedItemReplaces(s, items, at, cx);
  }

  /** Repeating an extraction creates no comment and re-keys none, even after the first sync had re-keyed some. */
  lemma RepeatedSyncIsIdempotent(rows: seq<Comment>, nextId: nat, items: seq<Extracted>, cx: Context, later: Context)
    requires Valid(rows, nextId) && DistinctItems(items) && later.prefix == cx.prefix
    ensures var first := SyncFrom(StartState(rows, nextId, cx.prefix), items, 0, cx).0;
            var (second, outcome) := SyncFrom(StartState(first.rows, first.nextId, cx.prefix), items, 0, later);
            && outcome == Synced && second.nextId == first.nextId && |second.rows| == |first.rows|
            && forall i :: 0 <= i < |first.rows| ==>
                 SameIdentity(first.rows[i], second.rows[i]) && second.rows[i].sourceKey == first.rows[i].sourceKey
  {
    SyncKeepsComments(rows, nextId, items, cx);
    var first := SyncFrom(StartState(rows, nextId, cx.prefix), items, 0, cx).0;
    SyncKeepsComments(first.rows, first.nextId, items, later);
    StartIsMidway(first.rows, first.nextId, items, cx.prefix);
    HeldKeysAreNotCreated(StartState(first.rows, first.nextId, cx.prefix), items, 0, later);
  }
}
