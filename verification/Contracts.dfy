/** The document version record and the read-access rule shared by the components. */
module Contracts {
  import opened Sequences

  datatype SystemRole = User | Admin | Qmb

  datatype DocumentStatus = Planned | Draft | InProgress | InReview | InApproval | Approved | Archived

  function StatusValue(s: DocumentStatus): string {
    match s
    case Planned => "PLANNED"
    case Draft => "DRAFT"
    case InProgress => "IN_PROGRESS"
    case InReview => "IN_REVIEW"
    case InApproval => "IN_APPROVAL"
    case Approved => "APPROVED"
    case Archived => "ARCHIVED"
  }

  /** The stored words. */
  lemma StatusWordsSpelled()
    ensures StatusValue(Planned) == "PLANNED" && StatusValue(Draft) == "DRAFT"
    ensures StatusValue(InProgress) == "IN_PROGRESS" && StatusValue(InReview) == "IN_REVIEW"
    ensures StatusValue(InApproval) == "IN_APPROVAL"
    ensures StatusValue(Approved) == "APPROVED" && StatusValue(Archived) == "ARCHIVED"
  {
  }

  datatype DocumentType = VA | AA | FB | LS | EXT | OTHER

  /** The profile a seed import binds a document type to. */
  function BoundCode(d: DocumentType): string {
    if d == EXT then "external_control" else "long_release"
  }

  /** A moment is represented by its ISO text in UTC. */
  type Moment = string

  datatype ChangeRequest = ChangeRequest(changeId: string, reason: string, createdBy: string)

  datatype DocumentVersionState = DocumentVersionState(
    documentId: string,
    version: int,
    title: string,
    status: DocumentStatus,
    ownerUserId: Option<string>,
    editors: set<string>,
    reviewers: set<string>,
    approvers: set<string>,
    workflowActive: bool,
    extensionCount: int,
    editSignedAt: Option<Moment>,
    editSignedBy: Option<string>,
    reviewCompletedAt: Option<Moment>,
    reviewCompletedBy: Option<string>,
    approvalCompletedAt: Option<Moment>,
    approvalCompletedBy: Option<string>,
    releasedAt: Option<Moment>,
    validFrom: Option<Moment>,
    validUntil: Option<Moment>,
    nextReviewAt: Option<Moment>,
    archivedAt: Option<Moment>,
    archivedBy: Option<string>,
    supersededByVersion: Option<int>,
    changeRequests: seq<ChangeRequest>,
    lastEventId: Option<nat>,
    lastEventAt: Option<Moment>,
    lastActorUserId: Option<string>,
    createdAt: Option<Moment>,
    updatedAt: Option<Moment>)

  datatype Actor = Actor(userId: string, role: SystemRole)

  predicate MatchesUserContext(state: DocumentVersionState, userId: string) {
    || state.ownerUserId == Some(userId)
    || userId in state.editors
    || userId in state.reviewers
    || userId in state.approvers
    || state.lastActorUserId == Some(userId)
  }

  predicate HasReadAccess(state: DocumentVersionState, actor: Actor) {
    if actor.role == Qmb then true
    else if state.status == Approved then true
    else if state.status == Archived then state.ownerUserId == Some(actor.userId)
    else MatchesUserContext(state, actor.userId)
  }

  /** Who may read: the quality manager everything, everyone what is approved, its owner what is his, and whoever has a
      part in it what is not archived. */
  predicate MayRead(state: DocumentVersionState, actor: Actor) {
    || actor.role == Qmb
    || state.status == Approved
    || state.ownerUserId == Some(actor.userId)
    || (state.status != Archived
        && (actor.userId in state.editors + state.reviewers + state.approvers
            || state.lastActorUserId == Some(actor.userId)))
  }

  /** The rule as it is asked, case by case, is this one. */
  lemma ReadAccessMeansMayRead(state: DocumentVersionState, actor: Actor)
    ensures HasReadAccess(state, actor) <==> MayRead(state, actor)
  {
  }

  /** Versions are stored under their document id and version number. */
  predicate SameKey(a: DocumentVersionState, b: DocumentVersionState) {
    a.documentId == b.documentId && a.version == b.version
  }

  ghost predicate DistinctRows(rows: seq<DocumentVersionState>) {
    forall i, j :: 0 <= i < j < |rows| ==> !SameKey(rows[i], rows[j])
  }
}
