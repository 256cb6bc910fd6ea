/** Storing version states, and releasing a version: older approved versions are superseded first. */
module Releases {
  import opened Sequences
  import opened Contracts
  import opened Validation
  import Text

  datatype ReleaseError =
    | VersionNotFound
    | WorkflowNotActive
    | InvalidTransition
    | PermissionDenied
    | InvariantViolated
    | IndexViolated

  datatype Result<+T> = Ok(value: T) | Err(error: ReleaseError)

  ghost predicate AllInvariants(rows: seq<DocumentVersionState>) {
    forall i :: 0 <= i < |rows| ==> StateInvariants(rows[i])
  }

  /** At most one approved version per document. */
  ghost predicate SingleApproved(rows: seq<DocumentVersionState>) {
    forall i, j :: 0 <= i < j < |rows| && rows[i].status == Approved && rows[j].status == Approved ==>
      rows[i].documentId != rows[j].documentId
  }

  ghost predicate Valid(rows: seq<DocumentVersionState>) {
    DistinctRows(rows) && AllInvariants(rows) && SingleApproved(rows)
  }

  function Replaced(rows: seq<DocumentVersionState>, s: DocumentVersionState): seq<DocumentVersionState> {
    seq(|rows|, i requires 0 <= i < |rows| => if SameKey(rows[i], s) then s else rows[i])
  }

  /** The database refuses a second approved version of a document. */
  predicate BreaksIndex(rows: seq<DocumentVersionState>, s: DocumentVersionState) {
    s.status == Approved
    && exists i :: 0 <= i < |rows| && rows[i].status == Approved
                   && rows[i].documentId == s.documentId && rows[i].version != s.version
  }

  function Upsert(rows: seq<DocumentVersionState>, s: DocumentVersionState): Result<seq<DocumentVersionState>> {
    if BreaksIndex(rows, s) then Err(IndexViolated)
    else if exists i :: 0 <= i < |rows| && SameKey(rows[i], s) then Ok(Replaced(rows, s))
    else Ok(rows + [s])
  }

  function Store(rows: seq<DocumentVersionState>, s: DocumentVersionState): Result<seq<DocumentVersionState>> {
    if !StateInvariants(s) then Err(InvariantViolated) else Upsert(rows, s)
  }

  function OfDocument(documentId: string): DocumentVersionState -> bool {
    (s: DocumentVersionState) => s.documentId == documentId
  }

  function ByVersion(): (DocumentVersionState, DocumentVersionState) -> bool {
    (a: DocumentVersionState, b: DocumentVersionState) => a.version <= b.version
  }

  function ListVersions(rows: seq<DocumentVersionState>, documentId: string): seq<DocumentVersionState> {
    Sort(Keep(rows, OfDocument(documentId)), ByVersion())
  }

  lemma ListedVersions(rows: seq<DocumentVersionState>, documentId: string)
    ensures forall s :: s in ListVersions(rows, documentId) <==> s in rows && s.documentId == documentId
  {
    SortKeepsItems(Keep(rows, OfDocument(documentId)), ByVersion());
    forall s ensures s in ListVersions(rows, documentId) <==> s in rows && s.documentId == documentId {
      KeepMembers(rows, OfDocument(documentId), s);
    }
  }

  // --- Superseding, row by row and at once ---

  datatype Release = Release(documentId: string, version: int, actorUserId: string, now: Moment)

  predicate IsSuperseded(s: DocumentVersionState, r: Release) {
    s.documentId == r.documentId && s.version != r.version && s.status == Approved
  }

  function Aged(s: DocumentVersionState, r: Release): DocumentVersionState {
    if IsSuperseded(s, r) then Archive(s, r.version, r.actorUserId, r.now) else s
  }

  /** The other approved versions of the document archived, everything else as it was. */
  function Superseded(rows: seq<DocumentVersionState>, r: Release): seq<DocumentVersionState> {
    seq(|rows|, i requires 0 <= i < |rows| => Aged(rows[i], r))
  }

  function SupersededVersions(candidates: seq<DocumentVersionState>, r: Release): seq<int> {
    if candidates == [] then []
    else
      SupersededVersions(candidates[..|candidates| - 1], r)
      + (if IsSuperseded(candidates[|candidates| - 1], r) then [candidates[|candidates| - 1].version] else [])
  }

  /** The table when the first candidates have been looked at. */
  function PartlySuperseded(rows: seq<DocumentVersionState>, done: seq<DocumentVersionState>,
                            r: Release): seq<DocumentVersionState> {
    seq(|rows|, i requires 0 <= i < |rows| => if rows[i] in done then Aged(rows[i], r) else rows[i])
  }

  lemma NextCandidate(rows: seq<DocumentVersionState>, candidates: seq<DocumentVersionState>, k: nat, r: Release)
    requires DistinctRows(rows) && AllInvariants(rows) && k < |candidates| && candidates[k] in rows
    ensures var before := PartlySuperseded(rows, candidates[..k], r);
            var after := PartlySuperseded(rows, candidates[..k + 1], r);
            if IsSuperseded(candidates[k], r) then Store(before, Aged(candidates[k], r)) == Ok(after)
            else after == before
  {
    var c := candidates[k];
    var before := PartlySuperseded(rows, candidates[..k], r);
    var after := PartlySuperseded(rows, candidates[..k + 1], r);
    assert candidates[..k + 1] == candidates[..k] + [c];
    var j :| 0 <= j < |rows| && rows[j] == c;
    forall i | 0 <= i < |rows| ensures SameKey(rows[i], c) <==> i == j {
      assert i < j || i == j || j < i;
    }
    if IsSuperseded(c, r) {
      var archived := Aged(c, r);
      assert SameKey(before[j], archived);
      assert Replaced(before, archived) == after;
    } else {
      assert after == before;
    }
  }

  lemma AllCandidatesSeen(rows: seq<DocumentVersionState>, r: Release)
    ensures PartlySuperseded(rows, ListVersions(rows, r.documentId), r) == Superseded(rows, r)
  {
    ListedVersions(rows, r.documentId);
    forall i | 0 <= i < |rows|
      ensures PartlySuperseded(rows, ListVersions(rows, r.documentId), r)[i] == Superseded(rows, r)[i]
    {
      assert rows[i] in ListVersions(rows, r.documentId) <==> rows[i].documentId == r.documentId;
    }
  }

  // --- Releasing ---

  /** What the workflow supplies for an approval: defaults, the event and whether the four-eyes rule forbids it. */
  datatype Approval = Approval(validUntil: Moment, nextReviewAt: Moment, eventId: nat, fourEyesBlocked: bool)

  function Approve(s: DocumentVersionState, r: Release, a: Approval): DocumentVersionState {
    s.(status := Approved,
       approvalCompletedAt := Some(r.now), approvalCompletedBy := Some(r.actorUserId),
       releasedAt := if s.releasedAt.Some? then s.releasedAt else Some(r.now),
       validFrom := if s.validFrom.Some? then s.validFrom else Some(r.now),
       validUntil := if s.validUntil.Some? then s.validUntil else Some(a.validUntil),
       nextReviewAt := if s.nextReviewAt.Some? then s.nextReviewAt else Some(a.nextReviewAt),
       workflowActive := false)
  }

  function Stamped(s: DocumentVersionState, r: Release, a: Approval): DocumentVersionState {
    s.(lastEventId := Some(a.eventId), lastEventAt := Some(r.now), lastActorUserId := Some(r.actorUserId))
  }

  function Permitted(s: DocumentVersionState, r: Release, a: Approval): Result<()> {
    if !s.workflowActive then Err(WorkflowNotActive)
    else if s.status != InApproval then Err(InvalidTransition)
    else if r.actorUserId !in s.approvers || a.fourEyesBlocked then Err(PermissionDenied)
    else Ok(())
  }

  class DocumentsService {
    var rows: seq<DocumentVersionState>

    constructor ()
      ensures rows == []
    {
      rows := [];
    }

    method StoreState(s: DocumentVersionState) returns (r: Result<()>)
      modifies this
      ensures match Store(old(rows), s)
              case Ok(next) => r == Ok(()) && rows == next
              case Err(e) => r == Err(e) && rows == old(rows)
    {
      if !StateInvariants(s) {
        return Err(InvariantViolated);
      }
      var stored := Upsert(rows, s);
      if stored.Err? {
        return Err(stored.error);
      }
      rows := stored.value;
      r := Ok(());
    }

    /** On a store that meets the invariants this cannot fail. */
    method SupersedeOtherApprovedVersions(release: Release) returns (superseded: seq<int>)
      requires DistinctRows(rows) && AllInvariants(rows)
      modifies this
      ensures rows == Superseded(old(rows), release)
      ensures superseded == SupersededVersions(ListVersions(old(rows), release.documentId), release)
    {
      ghost var before := rows;
      var candidates := ListVersions(rows, release.documentId);
      ListedVersions(rows, release.documentId);
      superseded := SupersedeCandidates(candidates, release);
      AllCandidatesSeen(before, release);
    }

    method SupersedeCandidates(candidates: seq<DocumentVersionState>, release: Release) returns (superseded: seq<int>)
      requires DistinctRows(rows) && AllInvariants(rows)
      requires forall k :: 0 <= k < |candidates| ==>
                 candidates[k] in rows && candidates[k].documentId == release.documentId
      modifies this
      ensures rows == PartlySuperseded(old(rows), candidates, release)
      ensures superseded == SupersededVersions(candidates, release)
    {
      superseded := [];
      ghost var before := rows;
      assert rows == PartlySuperseded(before, candidates[..0], release);
      for k := 0 to |candidates|
        invariant rows == PartlySuperseded(before, candidates[..k], release)
        invariant superseded == SupersededVersions(candidates[..k], release)
      {
        NextCandidate(before, candidates, k, release);
        assert candidates[..k + 1][..k] == candidates[..k];
        var candidate := candidates[k];
        if candidate.version == release.version {
          continue;
        }
        if candidate.status != Approved {
          continue;
        }
        var stored := StoreState(Archive(candidate, release.version, release.actorUserId, release.now));
        superseded := superseded + [candidate.version];
      }
      assert candidates[..|candidates|] == candidates;
    }

    /** Approval of a version in its own transaction: everything happens, or nothing does. */
    method AcceptApproval(release: Release, approval: Approval) returns (r: Result<seq<int>>)
      requires Valid(rows)
      modifies this
      ensures match Released(old(rows), release, approval)
              case Ok(next) => r.Ok? && rows == next
              case Err(e) => r == Err(e) && rows == old(rows)
    {
      var before := rows;
      var found := FindVersion(rows, release);
      FindVersionFinds(rows, release);
      if found.None? {
        return Err(VersionNotFound);
      }
      var state := found.value;
      var permitted := Permitted(state, release, approval);
      if permitted.Err? {
        return Err(permitted.error);
      }
      var superseded := SupersedeOtherApprovedVersions(release);
      ReleaseStores(before, state, release, approval);
      var updated := Approve(state, release, approval);
      var stored := StoreState(updated);
      if stored.Err? {
        rows := before;
        return Err(stored.error);
      }
      stored := StoreState(Stamped(updated, release, approval));
      r := Ok(superseded);
    }
  }

  function FindVersion(rows: seq<DocumentVersionState>, r: Release): Option<DocumentVersionState> {
    if rows == [] then None
    else if rows[0].documentId == r.documentId && rows[0].version == r.version then Some(rows[0])
    else FindVersion(rows[1..], r)
  }

  lemma {:induction false} FindVersionFinds(rows: seq<DocumentVersionState>, r: Release)
    ensures var s := FindVersion(rows, r);
            s.Some? ==> s.value in rows && s.value.documentId == r.documentId && s.value.version == r.version
  {
    if rows != [] {
      FindVersionFinds(rows[1..], r);
    }
  }

  /** What releasing a version does to the whole store. */
  function Released(rows: seq<DocumentVersionState>, r: Release, a: Approval): Result<seq<DocumentVersionState>> {
    match FindVersion(rows, r)
    case None => Err(VersionNotFound)
    case Some(s) =>
      var permitted := Permitted(s, r, a);
      if permitted.Err? then Err(permitted.error)
      else if !StateInvariants(Approve(s, r, a)) then Err(InvariantViolated)
      else Ok(Replaced(Superseded(rows, r), Stamped(Approve(s, r, a), r, a)))
  }

  /** After superseding no other version of the document is approved. */
  lemma SupersedingClearsTheWay(rows: seq<DocumentVersionState>, r: Release)
    requires Valid(rows)
    ensures var after := Superseded(rows, r);
            && Valid(after)
            && forall i :: 0 <= i < |after| && after[i].documentId == r.documentId && after[i].status == Approved ==>
                 after[i].version == r.version
  {
    var after := Superseded(rows, r);
    forall i | 0 <= i < |after| ensures StateInvariants(after[i]) {
      assert StateInvariants(rows[i]);
    }
    forall i, j | 0 <= i < j < |after| ensures !SameKey(after[i], after[j]) {
      assert !SameKey(rows[i], rows[j]);
    }
  }

  /** Storing the approved state, then its stamped form, behind the superseding. */
  lemma ReleaseStores(rows: seq<DocumentVersionState>, s: DocumentVersionState, r: Release, a: Approval)
    requires Valid(rows) && s in rows && s.documentId == r.documentId && s.version == r.version
    ensures var (older, updated, stamped) := (Superseded(rows, r), Approve(s, r, a), Stamped(Approve(s, r, a), r, a));
            if StateInvariants(updated)
            then Store(older, updated) == Ok(Replaced(older, updated))
                 && Store(Replaced(older, updated), stamped) == Ok(Replaced(older, stamped))
            else Store(older, updated) == Err(InvariantViolated)
  {
    SupersedingClearsTheWay(rows, r);
    var at :| 0 <= at < |rows| && rows[at] == s;
    assert SameKey(Superseded(rows, r)[at], Approve(s, r, a));
    if StateInvariants(Approve(s, r, a)) {
      StoringTwice(Superseded(rows, r), Approve(s, r, a), Stamped(Approve(s, r, a), r, a));
    }
  }

  lemma StoringTwice(rows: seq<DocumentVersionState>, a: DocumentVersionState, b: DocumentVersionState)
    requires SameKey(a, b) && a.status == b.status && exists i :: 0 <= i < |rows| && SameKey(rows[i], a)
    requires !BreaksIndex(rows, a) && StateInvariants(b)
    ensures Store(Replaced(rows, a), b) == Ok(Replaced(rows, b))
  {
    var i :| 0 <= i < |rows| && SameKey(rows[i], a);
    assert SameKey(Replaced(rows, a)[i], b);
    assert Replaced(Replaced(rows, a), b) == Replaced(rows, b);
  }

  // --- A release by the rows' fields ---

  /** Archived by this release: the row that was, dated, signed and pointing at the released version. */
  ghost predicate ArchivedFor(row: DocumentVersionState, was: DocumentVersionState, r: Release) {
    && row.status == Archived && !row.workflowActive && row.supersededByVersion == Some(r.version)
    && row.archivedAt == Some(r.now) && row.archivedBy == Some(r.actorUserId)
    && was == row.(status := was.status, workflowActive := was.workflowActive, archivedAt := was.archivedAt,
                   archivedBy := was.archivedBy, supersededByVersion := was.supersededByVersion)
  }

  /** Released: approved now by the actor, dates that were set kept and the others filled in, the event noted. */
  ghost predicate ReleasedFrom(row: DocumentVersionState, was: DocumentVersionState, r: Release, a: Approval) {
    && row.status == Approved && !row.workflowActive
    && row.approvalCompletedAt == Some(r.now) && row.approvalCompletedBy == Some(r.actorUserId)
    && row.releasedAt == (if was.releasedAt == None then Some(r.now) else was.releasedAt)
    && row.validFrom == (if was.validFrom == None then Some(r.now) else was.validFrom)
    && row.validUntil == (if was.validUntil == None then Some(a.validUntil) else was.validUntil)
    && row.nextReviewAt == (if was.nextReviewAt == None then Some(a.nextReviewAt) else was.nextReviewAt)
    && row.lastEventId == Some(a.eventId) && row.lastEventAt == Some(r.now)
    && row.lastActorUserId == Some(r.actorUserId)
    && was == row.(status := was.status, workflowActive := was.workflowActive,
                   approvalCompletedAt := was.approvalCompletedAt, approvalCompletedBy := was.approvalCompletedBy,
                   releasedAt := was.releasedAt, validFrom := was.validFrom, validUntil := was.validUntil,
                   nextReviewAt := was.nextReviewAt, lastEventId := was.lastEventId, lastEventAt := was.lastEventAt,
                   lastActorUserId := was.lastActorUserId)
  }

  lemma ApprovedIsReleasedFrom(s: DocumentVersionState, r: Release, a: Approval)
    ensures ReleasedFrom(Stamped(Approve(s, r, a), r, a), s, r, a)
  {
  }

  lemma AgedIsArchivedFor(s: DocumentVersionState, r: Release)
    ensures if s.documentId == r.documentId && s.version != r.version && s.status == Approved
            then ArchivedFor(Aged(s, r), s, r) else Aged(s, r) == s
  {
  }

  lemma {:induction false} FoundIfStored(rows: seq<DocumentVersionState>, r: Release, at: nat)
    requires DistinctRows(rows) && at < |rows| && rows[at].documentId == r.documentId && rows[at].version == r.version
    ensures FindVersion(rows, r) == Some(rows[at])
  {
    if at > 0 {
      assert !SameKey(rows[0], rows[at]);
      FoundIfStored(rows[1..], r, at - 1);
    }
  }

  /**
   A release, row by row. It takes a stored version in an active workflow, waiting for approval, and one of its
   approvers whom the four-eyes rule does not exclude. Then that row is released, the other approved versions of the
   document are archived for it, and every other row stays; it can only fail on the invariants of the released row.
   */
  lemma ReleaseByFields(rows: seq<DocumentVersionState>, r: Release, a: Approval, at: nat)
    requires Valid(rows) && at < |rows| && rows[at].documentId == r.documentId && rows[at].version == r.version
    ensures var s, result := rows[at], Released(rows, r, a);
            if !s.workflowActive then result == Err(WorkflowNotActive)
            else if s.status != InApproval then result == Err(InvalidTransition)
            else if r.actorUserId !in s.approvers || a.fourEyesBlocked then result == Err(PermissionDenied)
            else if result.Err? then
              result.error == InvariantViolated
              && forall row :: ReleasedFrom(row, s, r, a) ==> !StateInvariants(row)
            else
              && |result.value| == |rows| && ReleasedFrom(result.value[at], s, r, a)
              && forall i :: 0 <= i < |rows| && i != at ==>
                   if rows[i].documentId == r.documentId && rows[i].status == Approved
                   then ArchivedFor(result.value[i], rows[i], r) else result.value[i] == rows[i]
  {
    FoundIfStored(rows, r, at);
    var s := rows[at];
    ApprovedIsReleasedFrom(s, r, a);
    forall i | 0 <= i < |rows| && i != at
      ensures !SameKey(rows[i], s) && rows[i].documentId == r.documentId ==> rows[i].version != r.version
      ensures if rows[i].documentId == r.documentId && rows[i].status == Approved
              then ArchivedFor(Aged(rows[i], r), rows[i], r) else Aged(rows[i], r) == rows[i]
    {
      assert i < at || at < i;
      AgedIsArchivedFor(rows[i], r);
    }
    forall row | ReleasedFrom(row, s, r, a) ensures row == Stamped(Approve(s, r, a), r, a) {
      SameRelease(row, Stamped(Approve(s, r, a), r, a), s, r, a);
    }
  }

  lemma SameRelease(x: DocumentVersionState, y: DocumentVersionState, was: DocumentVersionState, r: Release,
                    a: Approval)
    requires ReleasedFrom(x, was, r, a) && ReleasedFrom(y, was, r, a)
    ensures x == y
  {
  }

  /** There is nothing to release if the version is not stored. */
  lemma {:induction false} NothingToRelease(rows: seq<DocumentVersionState>, r: Release, a: Approval)
    requires forall i :: 0 <= i < |rows| ==> rows[i].documentId != r.documentId || rows[i].version != r.version
    ensures Released(rows, r, a) == Err(VersionNotFound)
  {
    FindVersionFinds(rows, r);
  }

  lemma {:induction false} SupersededInOrder(candidates: seq<DocumentVersionState>, r: Release)
    ensures SupersededVersions(candidates, r)
            == Versions(Keep(candidates, (s: DocumentVersionState) =>
                 s.documentId == r.documentId && s.version != r.version && s.status == Approved))
  {
    if candidates != [] {
      var p := (s: DocumentVersionState) =>
        s.documentId == r.documentId && s.version != r.version && s.status == Approved;
      var front, last := candidates[..|candidates| - 1], candidates[|candidates| - 1];
      SupersededInOrder(front, r);
      assert candidates == front + [last];
      KeepConcat(front, [last], p);
      KeepSplits([last], p);
      assert Keep([last], p) == if p(last) then [last] else [];
    }
  }

  function Versions(rows: seq<DocumentVersionState>): (r: seq<int>)
    ensures |r| == |rows| && forall i :: 0 <= i < |rows| ==> r[i] == rows[i].version
  {
    seq(|rows|, i requires 0 <= i < |rows| => rows[i].version)
  }

  /** Listed versions ascend. */
  lemma ListedVersionsAscend(rows: seq<DocumentVersionState>, documentId: string)
    ensures var listed := ListVersions(rows, documentId);
            forall i, j :: 0 <= i < j < |listed| ==> listed[i].version <= listed[j].version
  {
    SortSorts(Keep(rows, OfDocument(documentId)), ByVersion());
    var listed := ListVersions(rows, documentId);
    forall i, j | 0 <= i < j < |listed| ensures listed[i].version <= listed[j].version {
      assert ByVersion()(listed[i], listed[j]);
    }
  }

  ghost predicate IsOtherApproved(x: DocumentVersionState, s: DocumentVersionState) {
    x.status == Approved && x.documentId == s.documentId && x.version != s.version
  }

  /** Storing: a second approved version is refused, else the row of that key is replaced or a row is added. */
  lemma StoreByFields(rows: seq<DocumentVersionState>, s: DocumentVersionState)
    ensures var result := Store(rows, s);
            if !StateInvariants(s) then result == Err(InvariantViolated)
            else if s.status == Approved && (exists x :: x in rows && IsOtherApproved(x, s)) then
              result == Err(IndexViolated)
            else result.Ok? && TakesRow(rows, result.value, s)
  {
    UpsertByFields(rows, s);
  }

  /** The row of that key is replaced, or a row is added behind the others, and every other row stays. */
  ghost predicate TakesRow(rows: seq<DocumentVersionState>, after: seq<DocumentVersionState>, s: DocumentVersionState) {
    && (if exists x :: x in rows && x.documentId == s.documentId && x.version == s.version
        then |after| == |rows| else after == rows + [s])
    && |rows| <= |after|
    && forall i :: 0 <= i < |rows| ==>
         after[i] == if rows[i].documentId == s.documentId && rows[i].version == s.version then s else rows[i]
  }

  lemma UpsertByFields(rows: seq<DocumentVersionState>, s: DocumentVersionState)
    ensures var result := Upsert(rows, s);
            if s.status == Approved && (exists x :: x in rows && IsOtherApproved(x, s)) then
              result == Err(IndexViolated)
            else result.Ok? && TakesRow(rows, result.value, s)
  {
    if BreaksIndex(rows, s) {
      var i :| 0 <= i < |rows| && rows[i].status == Approved
               && rows[i].documentId == s.documentId && rows[i].version != s.version;
      assert rows[i] in rows && IsOtherApproved(rows[i], s);
    }
    if i :| 0 <= i < |rows| && SameKey(rows[i], s) {
      assert rows[i] in rows;
    }
  }

  // --- Runs ---

  datatype Operation =
    | Create(documentId: string, version: int, title: string, owner: Option<string>, now: Moment)
    | StoreState(state: DocumentVersionState)
    | Accept(release: Release, approval: Approval)

  /** A title of white space only gives way to the document's id. */
  function Planned(documentId: string, version: int, title: string, owner: Option<string>,
                   now: Moment): DocumentVersionState {
    var named := if Text.Strip(title) == "" then documentId else Text.Strip(title);
    DocumentVersionState(documentId, version, named, DocumentStatus.Planned, owner, {}, {}, {}, false, 0,
                         None, None, None, None, None, None, None, None, None, None, None, None, None, [],
                         None, None, None, Some(now), None)
  }

  /**
   A failing operation changes nothing. `StoreState` stands for every other store: drafts and workflow steps, but also
   metadata, change requests and extensions of versions that are and stay approved.
   */
  function Perform(rows: seq<DocumentVersionState>, op: Operation): seq<DocumentVersionState> {
    match op
    case Create(documentId, version, title, owner, now) =>
      var s := Planned(documentId, version, title, owner, now);
      if version <= 0 || exists i :: 0 <= i < |rows| && SameKey(rows[i], s) then rows else rows + [s]
    case StoreState(s) =>
      (match Store(rows, s) case Ok(next) => next case Err(_) => rows)
    case Accept(r, a) =>
      (match Released(rows, r, a) case Ok(next) => next case Err(_) => rows)
  }

  function PerformAll(rows: seq<DocumentVersionState>, ops: seq<Operation>): seq<DocumentVersionState>
    decreases |ops|
  {
    if ops == [] then rows else PerformAll(Perform(rows, ops[0]), ops[1..])
  }

  /** A created version is planned and holds nothing but its key, its title or else its id, its owner and when it was
      created; it is added behind the others unless its number is not positive or its key is stored. */
  lemma CreateByFields(rows: seq<DocumentVersionState>, documentId: string, version: int, title: string,
                       owner: Option<string>, now: Moment)
    ensures var after := Perform(rows, Create(documentId, version, title, owner, now));
            if version <= 0 || (exists x :: x in rows && x.documentId == documentId && x.version == version) then
              after == rows
            else
              && |after| == |rows| + 1 && after[..|rows|] == rows && IsPlanned(after[|rows|])
              && after[|rows|].documentId == documentId && after[|rows|].version == version
              && after[|rows|].title == (if Text.Strip(title) == "" then documentId else Text.Strip(title))
              && after[|rows|].ownerUserId == owner && after[|rows|].createdAt == Some(now)
  {
    if i :| 0 <= i < |rows| && SameKey(rows[i], Planned(documentId, version, title, owner, now)) {
      assert rows[i] in rows;
    }
  }

  ghost predicate IsPlanned(s: DocumentVersionState) {
    && s.status == DocumentStatus.Planned && !s.workflowActive && s.extensionCount == 0
    && s.editors == s.reviewers == s.approvers == {} && s.changeRequests == []
    && s.editSignedAt == s.reviewCompletedAt == s.approvalCompletedAt == s.releasedAt == s.archivedAt == None
    && s.editSignedBy == s.reviewCompletedBy == s.approvalCompletedBy == s.archivedBy == None
    && s.validFrom == s.validUntil == s.nextReviewAt == None && s.supersededByVersion == None
    && s.lastEventId == None && s.lastEventAt == s.updatedAt == None && s.lastActorUserId == None
  }

  /** A run's other steps store what they are given, or release. */
  lemma OtherStepsStore(rows: seq<DocumentVersionState>, s: DocumentVersionState, r: Release, a: Approval)
    ensures Perform(rows, StoreState(s)) == if Store(rows, s).Ok? then Store(rows, s).value else rows
    ensures Perform(rows, Accept(r, a)) == if Released(rows, r, a).Ok? then Released(rows, r, a).value else rows
  {
  }

  lemma ReplacingKeepsValid(rows: seq<DocumentVersionState>, s: DocumentVersionState)
    requires Valid(rows) && StateInvariants(s) && !BreaksIndex(rows, s)
    ensures Valid(Replaced(rows, s))
  {
    var after := Replaced(rows, s);
    forall i, j | 0 <= i < j < |after| ensures !SameKey(after[i], after[j]) {
      assert !SameKey(rows[i], rows[j]);
    }
    forall i | 0 <= i < |after| ensures StateInvariants(after[i]) {
      assert StateInvariants(rows[i]);
    }
    forall i, j | 0 <= i < j < |after| && after[i].status == Approved && after[j].status == Approved
      ensures after[i].documentId != after[j].documentId
    {
      assert !SameKey(rows[i], rows[j]);
    }
  }

  /** A release leaves exactly one approved version of its document: the released one. */
  lemma ReleaseLeavesOneApproved(rows: seq<DocumentVersionState>, r: Release, a: Approval)
    requires Valid(rows) && Released(rows, r, a).Ok?
    ensures var after := Released(rows, r, a).value;
            && Valid(after) && |after| == |rows|
            && (exists i :: 0 <= i < |after| && after[i].documentId == r.documentId && after[i].version == r.version
                            && after[i].status == Approved)
            && (forall i :: 0 <= i < |after| && after[i].documentId == r.documentId && after[i].version != r.version ==>
                  after[i] == Aged(rows[i], r) && after[i].status != Approved)
            && (forall i :: 0 <= i < |after| && after[i].documentId != r.documentId ==> after[i] == rows[i])
  {
    FindVersionFinds(rows, r);
    var s := FindVersion(rows, r).value;
    SupersedingClearsTheWay(rows, r);
    var released := Stamped(Approve(s, r, a), r, a);
    ReplacingKeepsValid(Superseded(rows, r), released);
    var at :| 0 <= at < |rows| && rows[at] == s;
    OnlyReleasedApproved(rows, r, released, at);
  }

  lemma OnlyReleasedApproved(rows: seq<DocumentVersionState>, r: Release, released: DocumentVersionState, at: nat)
    requires Valid(rows) && at < |rows| && SameKey(rows[at], released) && released.status == Approved
    requires released.documentId == r.documentId && released.version == r.version
    ensures var after := Replaced(Superseded(rows, r), released);
            && |after| == |rows| && after[at] == released
            && (forall i :: 0 <= i < |after| && after[i].documentId == r.documentId && after[i].version != r.version ==>
                  after[i] == Aged(rows[i], r) && after[i].status != Approved)
            && (forall i :: 0 <= i < |after| && after[i].documentId != r.documentId ==> after[i] == rows[i])
  {
    SupersedingClearsTheWay(rows, r);
    assert SameKey(Superseded(rows, r)[at], released);
  }

  lemma UpsertKeepsValid(rows: seq<DocumentVersionState>, s: DocumentVersionState)
    requires Valid(rows) && StateInvariants(s) && Upsert(rows, s).Ok?
    ensures Valid(Upsert(rows, s).value)
  {
    UpsertKeepsSingleApproved(rows, s);
    forall i | 0 <= i < |Upsert(rows, s).value| ensures StateInvariants(Upsert(rows, s).value[i]) {
      assert i < |rows| ==> StateInvariants(rows[i]);
    }
  }

  lemma PerformKeepsValid(rows: seq<DocumentVersionState>, op: Operation)
    requires Valid(rows)
    ensures Valid(Perform(rows, op))
  {
    match op
    case Create(documentId, version, title, owner, now) =>
    case StoreState(s) =>
      if Store(rows, s).Ok? {
        UpsertKeepsValid(rows, s);
      }
    case Accept(r, a) =>
      if Released(rows, r, a).Ok? {
        ReleaseLeavesOneApproved(rows, r, a);
      }
  }

  /** Over every run of creations, stores and releases, no document ever has two approved versions. */
  lemma {:induction false} RunsKeepSingleApproved(rows: seq<DocumentVersionState>, ops: seq<Operation>)
    requires Valid(rows)
    ensures Valid(PerformAll(rows, ops))
    decreases |ops|
  {
    if ops != [] {
      PerformKeepsValid(rows, ops[0]);
      RunsKeepSingleApproved(Perform(rows, ops[0]), ops[1..]);
    }
  }

  // --- Writers side by side ---

  /** Whatever any number of transactions have read, the table refuses the write that would approve a second version. */
  lemma UpsertKeepsSingleApproved(rows: seq<DocumentVersionState>, s: DocumentVersionState)
    requires DistinctRows(rows) && SingleApproved(rows) && Upsert(rows, s).Ok?
    ensures DistinctRows(Upsert(rows, s).value) && SingleApproved(Upsert(rows, s).value)
  {
    var after := Upsert(rows, s).value;
    forall i, j | 0 <= i < j < |after| ensures !SameKey(after[i], after[j]) {
      assert j < |rows| ==> !SameKey(rows[i], rows[j]);
    }
    forall i, j | 0 <= i < j < |after| && after[i].status == Approved && after[j].status == Approved
      ensures after[i].documentId != after[j].documentId
    {
      assert j < |rows| ==> !SameKey(rows[i], rows[j]);
    }
  }

  /** Row writes of any transactions in any order; a refused one changes nothing. */
  function WriteAll(rows: seq<DocumentVersionState>, writes: seq<DocumentVersionState>): seq<DocumentVersionState>
    decreases |writes|
  {
    if writes == [] then rows
    else
      var before := WriteAll(rows, writes[..|writes| - 1]);
      var upserted := Upsert(before, writes[|writes| - 1]);
      if upserted.Ok? then upserted.value else before
  }

  /** Writes go one after the other, each on what the ones before have left. */
  lemma {:induction false} WritesCompose(rows: seq<DocumentVersionState>, first: seq<DocumentVersionState>,
                                         later: seq<DocumentVersionState>)
    ensures WriteAll(rows, first + later) == WriteAll(WriteAll(rows, first), later)
    decreases |later|
  {
    if later == [] {
      assert first + later == first;
    } else {
      assert (first + later)[..|first + later| - 1] == first + later[..|later| - 1];
      WritesCompose(rows, first, later[..|later| - 1]);
    }
  }

  /** One write of a row, whatever its invariants: the index may refuse it, else it replaces its row or is added. */
  lemma WriteByFields(rows: seq<DocumentVersionState>, s: DocumentVersionState)
    ensures var after := WriteAll(rows, [s]);
            if s.status == Approved && (exists x :: x in rows && IsOtherApproved(x, s)) then after == rows
            else TakesRow(rows, after, s)
  {
    assert [s][..0] == [];
    assert WriteAll(rows, []) == rows;
    UpsertByFields(rows, s);
  }

  /**
   So releases may also run side by side: no interleaving of their writes leaves a document with two approved
   versions.
   */
  lemma {:induction false} AnyWritesKeepSingleApproved(rows: seq<DocumentVersionState>,
                                                       writes: seq<DocumentVersionState>)
    requires DistinctRows(rows) && SingleApproved(rows)
    ensures DistinctRows(WriteAll(rows, writes)) && SingleApproved(WriteAll(rows, writes))
    decreases |writes|
  {
    if writes != [] {
      var front := writes[..|writes| - 1];
      AnyWritesKeepSingleApproved(rows, front);
      if Upsert(WriteAll(rows, front), writes[|writes| - 1]).Ok? {
        UpsertKeepsSingleApproved(WriteAll(rows, front), writes[|writes| - 1]);
      }
    }
  }
}
