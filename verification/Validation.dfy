/** Invariants every stored version state must meet, and the change a newer release makes to an older one. */
module Validation {
  import opened Sequences
  import opened Contracts
  import Text

  predicate Before(a: Moment, b: Moment) {
    Text.Less(a, b)
  }

  predicate StateInvariants(s: DocumentVersionState) {
    && 0 <= s.extensionCount <= 3
    && (s.status != Approved && s.status != Archived ==> s.extensionCount == 0)
    && (s.reviewCompletedAt.Some? ==> s.reviewCompletedBy.Some?)
    && (s.approvalCompletedAt.Some? ==> s.approvalCompletedBy.Some?)
    && (s.editSignedAt.Some? ==> s.editSignedBy.Some?)
    && (s.releasedAt.Some? ==> s.approvalCompletedAt.Some?)
    && (s.archivedAt.Some? ==> s.status == Archived)
    && (s.archivedBy.Some? ==> s.status == Archived)
    && (s.validFrom.Some? && s.validUntil.Some? ==> !Before(s.validUntil.value, s.validFrom.value))
    && (s.validFrom.Some? && s.nextReviewAt.Some? ==> !Before(s.nextReviewAt.value, s.validFrom.value))
  }

  /** The archived form a newer release gives an approved version; it carries no new event. */
  function Archive(s: DocumentVersionState, newVersion: int, archivedBy: string, now: Moment): DocumentVersionState {
    s.(status := Archived, workflowActive := false, archivedAt := Some(now), archivedBy := Some(archivedBy),
       supersededByVersion := Some(newVersion))
  }

  /** Archiving an approved state that meets the invariants never violates them. */
  lemma ArchiveKeepsInvariants(s: DocumentVersionState, newVersion: int, archivedBy: string, now: Moment)
    requires StateInvariants(s) && s.status == Approved
    ensures StateInvariants(Archive(s, newVersion, archivedBy, now))
  {
  }

  /** The archived form by its fields: archived now by the releasing user for the new version, and nothing else. */
  lemma ArchiveByFields(s: DocumentVersionState, newVersion: int, archivedBy: string, now: Moment)
    ensures var a := Archive(s, newVersion, archivedBy, now);
            && a.status == Archived && !a.workflowActive && a.supersededByVersion == Some(newVersion)
            && a.archivedBy == Some(archivedBy) && a.archivedAt == Some(now)
            && s == a.(status := s.status, workflowActive := s.workflowActive, archivedAt := s.archivedAt,
                       archivedBy := s.archivedBy, supersededByVersion := s.supersededByVersion)
  {
  }

  /** What makes a state invalid. */
  lemma InvalidStates(s: DocumentVersionState)
    ensures !StateInvariants(s) <==>
            || s.extensionCount < 0 || s.extensionCount > 3
            || (s.extensionCount > 0 && s.status !in {Approved, Archived})
            || (s.reviewCompletedBy == None && s.reviewCompletedAt != None)
            || (s.approvalCompletedBy == None && s.approvalCompletedAt != None)
            || (s.editSignedBy == None && s.editSignedAt != None)
            || (s.approvalCompletedAt == None && s.releasedAt != None)
            || (s.status != Archived && (s.archivedAt != None || s.archivedBy != None))
            || (s.validFrom.Some? && s.validUntil.Some? && Text.Less(s.validUntil.value, s.validFrom.value))
            || (s.validFrom.Some? && s.nextReviewAt.Some? && Text.Less(s.nextReviewAt.value, s.validFrom.value))
  {
  }
}
