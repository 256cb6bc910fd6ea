/** Compare-and-mutate on the event token of a document version, under any interleaving of clients. */
module OptimisticLock {
  import opened Sequences
  import opened Contracts
  import opened Validation
  import Text

  type VersionKey = (string, int)

  /** Who may do it: no guard, a workflow permission decided elsewhere, or owner-or-privileged. */
  datatype Guard = NoGuard | Action(allowed: (DocumentVersionState, Actor) -> bool) | OwnerOrPrivileged

  /** Two operations in full, and any other one that changes the state, stamps an event and stores. */
  datatype Operation =
    | AddChangeRequest(changeId: string, reason: string)
    | UpdateMetadata(title: Option<string>, changeRequests: Option<seq<ChangeRequest>>)
    | Stamping(change: (DocumentVersionState, Actor) -> Option<DocumentVersionState>)

  datatype MutationError =
    | NotFound
    | PermissionDenied
    | ConflictWith(current: DocumentVersionState)
    | Invalid

  datatype Result<+T> = Ok(value: T) | Err(error: MutationError)

  predicate OwnsOrPrivileged(state: DocumentVersionState, actor: Actor) {
    actor.role == Qmb || state.ownerUserId == Some(actor.userId)
  }

  // --- Operations on one state ---

  /** The event of a mutation: its fresh id, its time and the acting user. */
  datatype Event = Event(id: nat, at: Moment, actorUserId: string)

  function Stamp(s: DocumentVersionState, e: Event): DocumentVersionState {
    s.(lastEventId := Some(e.id), lastEventAt := Some(e.at), lastActorUserId := Some(e.actorUserId))
  }

  predicate HasChange(requests: seq<ChangeRequest>, changeId: string) {
    exists i :: 0 <= i < |requests| && Text.Strip(requests[i].changeId) == changeId
  }

  function Operate(s: DocumentVersionState, op: Operation, actor: Actor, e: Event): Result<DocumentVersionState> {
    match op
    case AddChangeRequest(changeId, reason) =>
      var id, why := Text.Strip(changeId), Text.Strip(reason);
      if !OwnsOrPrivileged(s, actor) then Err(PermissionDenied)
      else if id == "" || why == "" || HasChange(s.changeRequests, id) then Err(Invalid)
      else Stored(Stamp(s.(changeRequests := s.changeRequests + [ChangeRequest(id, why, actor.userId)]), e))
    case UpdateMetadata(title, changeRequests) =>
      var titled := if title.Some? && Text.Strip(title.value) != "" then s.(title := Text.Strip(title.value)) else s;
      if !OwnsOrPrivileged(s, actor) then Err(PermissionDenied)
      else Stored(Stamp(if changeRequests.Some? then titled.(changeRequests := changeRequests.value) else titled, e))
    case Stamping(change) =>
      match change(s, actor)
      case None => Err(Invalid)
      case Some(changed) => Stored(Stamp(changed, e))
  }

  /** Storing asserts the state invariants first. */
  function Stored(s: DocumentVersionState): Result<DocumentVersionState> {
    if StateInvariants(s) then Ok(s) else Err(Invalid)
  }

  /** What `mutate_version_if_current` answers for the locked state, before any operation runs. */
  function Admit(current: Option<DocumentVersionState>, expected: Option<nat>, actor: Option<Actor>, guard: Guard):
      Result<DocumentVersionState>
  {
    if current.None? then Err(NotFound)
    else if actor.Some? && !HasReadAccess(current.value, actor.value) then Err(NotFound)
    else if !guard.NoGuard? && actor.None? then Err(PermissionDenied)
    else
      var denied := (guard.Action? && !guard.allowed(current.value, actor.value))
                    || (guard.OwnerOrPrivileged? && !OwnsOrPrivileged(current.value, actor.value));
      if current.value.lastEventId != expected then Err(if denied then NotFound else ConflictWith(current.value))
      else if denied then Err(PermissionDenied)
      else Ok(current.value)
  }

  /** The guards as one predicate: who may learn that a version exists and act on it. */
  predicate Authorized(current: DocumentVersionState, actor: Option<Actor>, guard: Guard) {
    && (actor.Some? ==> HasReadAccess(current, actor.value))
    && match guard
       case NoGuard => true
       case Action(allowed) => actor.Some? && allowed(current, actor.value)
       case OwnerOrPrivileged => actor.Some? && OwnsOrPrivileged(current, actor.value)
  }

  /** A stale token never leaks the current state to someone who is not authorised, and nobody mutates past it. */
  lemma AdmissionIsSafe(current: DocumentVersionState, expected: Option<nat>, actor: Option<Actor>, guard: Guard)
    ensures var r := Admit(Some(current), expected, actor, guard);
            && (r.Ok? <==> Authorized(current, actor, guard) && current.lastEventId == expected)
            && (r == Err(ConflictWith(current)) <==>
                Authorized(current, actor, guard) && current.lastEventId != expected)
            && (r.Err? && r.error.ConflictWith? ==> r.error.current == current)
  {
  }

  /** Admission on the version's own fields, answer by answer. */
  lemma AdmissionByFields(current: Option<DocumentVersionState>, expected: Option<nat>, actor: Option<Actor>,
                          guard: Guard)
    ensures var r := Admit(current, expected, actor, guard);
            if current.None? then r == Err(NotFound)
            else
              var s := current.value;
              if actor.Some? && !MayRead(s, actor.value) then r == Err(NotFound)
              else if !guard.NoGuard? && actor.None? then r == Err(PermissionDenied)
              else if GuardPasses(s, actor, guard) then
                r == if s.lastEventId == expected then Ok(s) else Err(ConflictWith(s))
              else r == Err(if s.lastEventId == expected then PermissionDenied else NotFound)
  {
    if current.Some? && actor.Some? {
      ReadAccessMeansMayRead(current.value, actor.value);
    }
  }

  /** What a guard asks of the actor: nothing, a permission decided elsewhere, to be the owner or quality manager. */
  ghost predicate GuardPasses(s: DocumentVersionState, actor: Option<Actor>, guard: Guard) {
    && (guard.Action? ==> actor.Some? && guard.allowed(s, actor.value))
    && (guard.OwnerOrPrivileged? ==>
          actor.Some? && (actor.value.role == Qmb || s.ownerUserId == Some(actor.value.userId)))
  }

  /** The mark every operation leaves: event, time and acting user. */
  function WithEvent(s: DocumentVersionState, e: Event): DocumentVersionState {
    s.(lastActorUserId := Some(e.actorUserId), lastEventAt := Some(e.at), lastEventId := Some(e.id))
  }

  /**
   A metadata update by the owner or the quality manager: a title that is not blank is taken over trimmed, requests
   are taken over if given, the event is noted, and nothing else changes. It is stored if the state is valid.
   */
  lemma UpdateMetadataByFields(s: DocumentVersionState, title: Option<string>, requests: Option<seq<ChangeRequest>>,
                               actor: Actor, e: Event)
    ensures var r := Operate(s, UpdateMetadata(title, requests), actor, e);
            if actor.role != Qmb && s.ownerUserId != Some(actor.userId) then r == Err(PermissionDenied)
            else
              var newTitle := if title == None || Text.Strip(title.value) == "" then s.title
                              else Text.Strip(title.value);
              var newRequests := if requests == None then s.changeRequests else requests.value;
              var updated := WithEvent(s, e).(title := newTitle, changeRequests := newRequests);
              r == if StateInvariants(s) then Ok(updated) else Err(Invalid)
  {
  }

  /**
   A change request by the owner or the quality manager: id and reason are trimmed and must not be blank, the id must
   be new among the trimmed ones; the request comes behind the others under the actor's name, and the event is noted.
   */
  lemma AddChangeRequestByFields(s: DocumentVersionState, changeId: string, reason: string, actor: Actor, e: Event)
    ensures var r := Operate(s, AddChangeRequest(changeId, reason), actor, e);
            var id, why := Text.Strip(changeId), Text.Strip(reason);
            if actor.role != Qmb && s.ownerUserId != Some(actor.userId) then r == Err(PermissionDenied)
            else if id == "" || why == "" then r == Err(Invalid)
            else if exists c :: c in s.changeRequests && Text.Strip(c.changeId) == id then r == Err(Invalid)
            else
              var updated := WithEvent(s, e).(
                changeRequests := s.changeRequests + [ChangeRequest(id, why, actor.userId)]);
              r == if StateInvariants(s) then Ok(updated) else Err(Invalid)
  {
  }

  /** Any other operation: its change with the event noted, if there is one and it is valid. */
  lemma StampingByFields(s: DocumentVersionState, change: (DocumentVersionState, Actor) -> Option<DocumentVersionState>,
                         actor: Actor, e: Event)
    ensures var r := Operate(s, Stamping(change), actor, e);
            match change(s, actor)
            case None => r == Err(Invalid)
            case Some(changed) => r == if StateInvariants(changed) then Ok(WithEvent(changed, e)) else Err(Invalid)
  {
  }

  class DocumentsService {
    var states: map<VersionKey, DocumentVersionState>
    var nextEvent: nat

    constructor ()
      ensures states == map[] && nextEvent == 0
    {
      states, nextEvent := map[], 0;
    }

    method MutateVersionIfCurrent(key: VersionKey, expected: Option<nat>, actor: Option<Actor>, guard: Guard,
                                  op: Operation, performer: Actor, now: Moment)
      returns (r: Result<DocumentVersionState>)
      modifies this
      ensures nextEvent >= old(nextEvent)
      ensures key !in old(states) ==> r == Err(NotFound)
      ensures key in old(states) ==>
                r == match Admit(Some(old(states)[key]), expected, actor, guard)
                     case Err(e) => Err(e)
                     case Ok(current) => Operate(current, op, performer, Event(old(nextEvent), now, performer.userId))
      ensures r.Ok? ==> states == old(states)[key := r.value] && nextEvent == old(nextEvent) + 1
      ensures r.Err? ==> states == old(states)
    {
      if key !in states {
        return Err(NotFound);
      }
      var current := states[key];
      if actor.Some? && !HasReadAccess(current, actor.value) {
        return Err(NotFound);
      }
      var denied := false;
      match guard {
        case NoGuard =>
        case Action(allowed) =>
          if actor.None? {
            return Err(PermissionDenied);
          }
          denied := !allowed(current, actor.value);
        case OwnerOrPrivileged =>
          if actor.None? {
            return Err(PermissionDenied);
          }
          denied := !OwnsOrPrivileged(current, actor.value);
      }
      if current.lastEventId != expected {
        return Err(if denied then NotFound else ConflictWith(current));
      }
      if denied {
        return Err(PermissionDenied);
      }
      r := Operate(current, op, performer, Event(nextEvent, now, performer.userId));
      nextEvent := nextEvent + 1;
      if r.Ok? {
        states := states[key := r.value];
      }
    }
  }

  // --- Interleavings on one version ---

  /** What a superseding release noted when it listed the versions, and how many mutations had committed by then. */
  datatype Noted = Noted(state: DocumentVersionState, after: nat)

  /** One committed mutation: what it ran on, what its client had read, and who asked for what. */
  datatype Commit = Commit(readState: DocumentVersionState, ranOn: DocumentVersionState, op: Operation,
                           performer: Actor)

  /** One write of an archived form: what was noted, what it replaced, and the number of commits at both moments. */
  datatype WriteBack = WriteBack(noted: DocumentVersionState, replaced: DocumentVersionState,
                                 notedAfter: nat, writtenAfter: nat)

  /** `clients` and `releases` hold what each of them read last, if anything. */
  datatype System = System(
    current: DocumentVersionState,
    nextEvent: nat,
    clients: seq<Option<DocumentVersionState>>,
    releases: seq<Option<Noted>>,
    commits: seq<Commit>,
    writeBacks: seq<WriteBack>)

  /**
   A mutation locks the row from its read to its write. A release lists the versions without a lock and writes later.
   */
  datatype Step =
    | Read(client: nat)
    | Mutate(client: nat, op: Operation, performer: Actor, now: Moment)
    | List(release: nat)
    | ArchiveListed(release: nat, newVersion: int, archivedBy: string, now: Moment)

  /** The upsert replaces the row, but creation time and edit signature stay as stored if they are set. */
  function Overwrite(row: DocumentVersionState, s: DocumentVersionState): DocumentVersionState {
    s.(createdAt := if row.createdAt.Some? then row.createdAt else s.createdAt,
       editSignedAt := if row.editSignedAt.Some? then row.editSignedAt else s.editSignedAt,
       editSignedBy := if row.editSignedBy.Some? then row.editSignedBy else s.editSignedBy)
  }

  function TakeMutate(sys: System, seen: DocumentVersionState, op: Operation, performer: Actor, now: Moment): System {
    var next := sys.(nextEvent := sys.nextEvent + 1);
    match Admit(Some(sys.current), seen.lastEventId, Some(performer), NoGuard)
    case Err(_) => next
    case Ok(current) =>
      match Operate(current, op, performer, Event(sys.nextEvent, now, performer.userId))
      case Err(_) => next
      case Ok(updated) => next.(current := updated, commits := sys.commits + [Commit(seen, current, op, performer)])
  }

  /** The archived form of what was noted is written, whatever is stored by now. */
  function TakeArchive(sys: System, noted: Noted, newVersion: int, archivedBy: string, now: Moment): System {
    var archived := Archive(noted.state, newVersion, archivedBy, now);
    if noted.state.status != Approved || !StateInvariants(archived) then sys
    else sys.(current := Overwrite(sys.current, archived),
              writeBacks := sys.writeBacks + [WriteBack(noted.state, sys.current, noted.after, |sys.commits|)])
  }

  function Take(sys: System, step: Step): System {
    match step
    case Read(c) =>
      if c < |sys.clients| then sys.(clients := sys.clients[c := Some(sys.current)]) else sys
    case Mutate(c, op, performer, now) =>
      if c < |sys.clients| && sys.clients[c].Some? then TakeMutate(sys, sys.clients[c].value, op, performer, now)
      else sys
    case List(k) =>
      if k < |sys.releases| then sys.(releases := sys.releases[k := Some(Noted(sys.current, |sys.commits|))]) else sys
    case ArchiveListed(k, newVersion, archivedBy, now) =>
      if k < |sys.releases| && sys.releases[k].Some? then
        TakeArchive(sys, sys.releases[k].value, newVersion, archivedBy, now).(releases := sys.releases[k := None])
      else sys
  }

  function Run(sys: System, steps: seq<Step>): System
    decreases |steps|
  {
    if steps == [] then sys else Take(Run(sys, steps[..|steps| - 1]), steps[|steps| - 1])
  }

  predicate TokenBelow(s: DocumentVersionState, bound: nat) {
    s.lastEventId.Some? ==> s.lastEventId.value < bound
  }

  ghost predicate IsStart(sys: System) {
    && sys.commits == [] && sys.writeBacks == [] && TokenBelow(sys.current, sys.nextEvent)
    && (forall i :: 0 <= i < |sys.clients| ==> sys.clients[i] == None)
    && (forall i :: 0 <= i < |sys.releases| ==> sys.releases[i] == None)
  }

  /** A state that is stored, or that some client or release still remembers. */
  ghost predicate Known(sys: System, x: DocumentVersionState) {
    || x == sys.current
    || (exists i :: 0 <= i < |sys.clients| && sys.clients[i] == Some(x))
    || (exists i :: 0 <= i < |sys.releases| && sys.releases[i].Some? && sys.releases[i].value.state == x)
  }

  // --- States that share a token ---

  /** What archiving and overwriting may write on a state. */
  datatype Marks = Marks(workflowActive: bool, archivedAt: Option<Moment>, archivedBy: Option<string>,
                         supersededByVersion: Option<int>, createdAt: Option<Moment>,
                         editSignedAt: Option<Moment>, editSignedBy: Option<string>)

  function MarksOf(s: DocumentVersionState): Marks {
    Marks(s.workflowActive, s.archivedAt, s.archivedBy, s.supersededByVersion, s.createdAt,
          s.editSignedAt, s.editSignedBy)
  }

  function Unmarked(s: DocumentVersionState): DocumentVersionState {
    s.(status := Archived, workflowActive := false, archivedAt := None, archivedBy := None, supersededByVersion := None,
       createdAt := None, editSignedAt := None, editSignedBy := None)
  }

  predicate IsReleased(s: DocumentVersionState) {
    s.status == Approved || s.status == Archived
  }

  /** Under one token there is one state, or an approved one with its archived forms. */
  predicate Kin(x: DocumentVersionState, y: DocumentVersionState) {
    x.lastEventId == y.lastEventId && x != y ==> Unmarked(x) == Unmarked(y) && IsReleased(x) && IsReleased(y)
  }

  ghost predicate KnownAreKin(sys: System) {
    forall x, y :: Known(sys, x) && Known(sys, y) ==> Kin(x, y)
  }

  /** Only an archived state is stored under a token that something else is remembered under. */
  ghost predicate OnlyArchivedDiffers(sys: System) {
    forall x :: Known(sys, x) ==>
      && TokenBelow(x, sys.nextEvent)
      && (x.lastEventId == sys.current.lastEventId && x != sys.current ==> sys.current.status == Archived)
  }

  /**
   What a client can check before the call is that it read a released state at all: if it did not, nothing else can be
   stored under its token. Whether an approved state was archived since, or an archived one archived again, it
   cannot see.
   */
  predicate ArchivedSinceRead(readState: DocumentVersionState, ranOn: DocumentVersionState) {
    ranOn.status == Archived
    && (readState.status == Approved || (readState.status == Archived && MarksOf(readState) != MarksOf(ranOn)))
  }

  ghost predicate CommitFits(c: Commit) {
    c.ranOn != c.readState <==> ArchivedSinceRead(c.readState, c.ranOn)
  }

  ghost predicate Invariant(sys: System) {
    && KnownAreKin(sys) && OnlyArchivedDiffers(sys)
    && (forall i :: 0 <= i < |sys.commits| ==> CommitFits(sys.commits[i]))
  }

  lemma OperationsStamp(s: DocumentVersionState, op: Operation, performer: Actor, e: Event)
    ensures var r := Operate(s, op, performer, e); r.Ok? ==> r.value.lastEventId == Some(e.id)
  {
  }

  predicate IsArchivedForm(y: DocumentVersionState, x: DocumentVersionState) {
    y.status == Approved && x.status == Archived && x.lastEventId == y.lastEventId && Unmarked(x) == Unmarked(y)
  }

  lemma MutateOutcome(sys: System, seen: DocumentVersionState, op: Operation, performer: Actor, now: Moment)
    ensures var next := TakeMutate(sys, seen, op, performer, now);
            && next.nextEvent == sys.nextEvent + 1 && next.clients == sys.clients && next.releases == sys.releases
            && next.writeBacks == sys.writeBacks
            && ((next.commits == sys.commits && next.current == sys.current)
                || (next.commits == sys.commits + [Commit(seen, sys.current, op, performer)]
                    && seen.lastEventId == sys.current.lastEventId && next.current.lastEventId == Some(sys.nextEvent)))
  {
    OperationsStamp(sys.current, op, performer, Event(sys.nextEvent, now, performer.userId));
  }

  lemma ArchiveOutcome(sys: System, noted: Noted, newVersion: int, archivedBy: string, now: Moment)
    ensures var next := TakeArchive(sys, noted, newVersion, archivedBy, now);
            next == sys
            || (&& IsArchivedForm(noted.state, next.current)
                && next.current.changeRequests == noted.state.changeRequests
                && next == sys.(current := next.current,
                                writeBacks := sys.writeBacks
                                              + [WriteBack(noted.state, sys.current, noted.after, |sys.commits|)]))
  {
  }

  /** A client's operation may run: it may still read the stored state, whose token is the one it has read. */
  ghost predicate MayMutate(sys: System, c: nat, performer: Actor) {
    && c < |sys.clients| && sys.clients[c].Some?
    && MayRead(sys.current, performer) && sys.current.lastEventId == sys.clients[c].value.lastEventId
  }

  /** Nothing a client or a release has noted changes, nor anything that was written late. */
  ghost predicate NotesKept(sys: System, next: System) {
    next.clients == sys.clients && next.releases == sys.releases && next.writeBacks == sys.writeBacks
  }

  /** A client's operation in a run: it is stored and noted as a commit exactly if it may run and succeeds. */
  lemma MutatingByFields(sys: System, c: nat, op: Operation, performer: Actor, now: Moment)
    ensures var next := Take(sys, Mutate(c, op, performer, now));
            var result := Operate(sys.current, op, performer, Event(sys.nextEvent, now, performer.userId));
            && NotesKept(sys, next)
            && if MayMutate(sys, c, performer) && result.Ok? then
                 && next.current == result.value && next.nextEvent == sys.nextEvent + 1
                 && next.commits == sys.commits + [Commit(sys.clients[c].value, sys.current, op, performer)]
               else next.current == sys.current && next.commits == sys.commits && next.nextEvent >= sys.nextEvent
  {
    ReadAccessMeansMayRead(sys.current, performer);
  }

  /** Reading and listing note the stored state, for the one asked only, and a late write spends what it noted. */
  lemma NotingByFields(sys: System, k: nat, newVersion: int, archivedBy: string, now: Moment)
    ensures var next := Take(sys, Read(k));
            next == if k < |sys.clients| then sys.(clients := sys.clients[k := Some(sys.current)]) else sys
    ensures var next := Take(sys, List(k));
            && next.current == sys.current && next.commits == sys.commits && |next.releases| == |sys.releases|
            && forall i :: 0 <= i < |sys.releases| ==>
                 if i == k then next.releases[i].Some? && next.releases[i].value.state == sys.current
                                && next.releases[i].value.after == |sys.commits|
                 else next.releases[i] == sys.releases[i]
    ensures var next := Take(sys, ArchiveListed(k, newVersion, archivedBy, now));
            && next.clients == sys.clients && next.commits == sys.commits && |next.releases| == |sys.releases|
            && (forall i :: 0 <= i < |sys.releases| ==>
                  next.releases[i] == if i == k then None else sys.releases[i])
  {
  }

  /**
   A late write by its fields: what was noted, archived now for the new version, over whatever is stored; only creation
   time and edit signature stay as stored if they are set there.
   */
  lemma LateArchiveByFields(sys: System, noted: Noted, newVersion: int, archivedBy: string, now: Moment)
    requires noted.state.status == Approved && StateInvariants(noted.state)
    ensures var row, a := sys.current, TakeArchive(sys, noted, newVersion, archivedBy, now).current;
            && a.status == Archived && !a.workflowActive && a.supersededByVersion == Some(newVersion)
            && a.archivedBy == Some(archivedBy) && a.archivedAt == Some(now)
            && a.createdAt == (if row.createdAt == None then noted.state.createdAt else row.createdAt)
            && a.editSignedAt == (if row.editSignedAt == None then noted.state.editSignedAt else row.editSignedAt)
            && a.editSignedBy == (if row.editSignedBy == None then noted.state.editSignedBy else row.editSignedBy)
            && a.title == noted.state.title && a.changeRequests == noted.state.changeRequests
            && a.lastEventId == noted.state.lastEventId && a.ownerUserId == noted.state.ownerUserId
            && Unmarked(a) == Unmarked(noted.state)
  {
    ArchiveKeepsInvariants(noted.state, newVersion, archivedBy, now);
  }

  // --- What every step keeps ---

  /** Reading, listing and forgetting only spread what is known. */
  lemma SpreadingKeepsInvariant(sys: System, next: System)
    requires Invariant(sys) && next.current == sys.current && next.nextEvent >= sys.nextEvent
    requires next.commits == sys.commits
    requires forall x :: Known(next, x) ==> Known(sys, x)
    ensures Invariant(next)
  {
  }

  /** A mutation's state has a token nothing else carries. */
  lemma FreshKeepsInvariant(sys: System, next: System, commit: Commit)
    requires Invariant(sys) && next.current.lastEventId == Some(sys.nextEvent) && next.nextEvent > sys.nextEvent
    requires forall x :: Known(next, x) ==> Known(sys, x) || x == next.current
    requires next.commits == sys.commits + [commit] && commit.ranOn == sys.current
    requires Known(sys, commit.readState) && commit.readState.lastEventId == sys.current.lastEventId
    ensures Invariant(next)
  {
    forall x, y | Known(next, x) && Known(next, y) ensures Kin(x, y) {
      assert x != next.current ==> TokenBelow(x, sys.nextEvent);
      assert y != next.current ==> TokenBelow(y, sys.nextEvent);
    }
    forall x | Known(next, x)
      ensures TokenBelow(x, next.nextEvent)
      ensures x.lastEventId == next.current.lastEventId && x != next.current ==> next.current.status == Archived
    {
      assert x != next.current ==> TokenBelow(x, sys.nextEvent);
    }
    assert Known(sys, sys.current);
    KinFit(commit);
  }

  lemma KinFit(c: Commit)
    requires Kin(c.readState, c.ranOn) && c.readState.lastEventId == c.ranOn.lastEventId
    requires c.readState != c.ranOn ==> c.ranOn.status == Archived
    ensures CommitFits(c)
  {
    if c.readState != c.ranOn && c.readState.status == Archived && MarksOf(c.readState) == MarksOf(c.ranOn) {
      SameMarksSameState(c.readState, c.ranOn);
    }
  }

  lemma SameMarksSameState(x: DocumentVersionState, y: DocumentVersionState)
    requires Unmarked(x) == Unmarked(y) && MarksOf(x) == MarksOf(y) && x.status == y.status
    ensures x == y
  {
    assert x == Unmarked(x).(status := x.status, workflowActive := x.workflowActive, archivedAt := x.archivedAt,
                             archivedBy := x.archivedBy, supersededByVersion := x.supersededByVersion,
                             createdAt := x.createdAt, editSignedAt := x.editSignedAt, editSignedBy := x.editSignedBy);
  }

  /** An archived form is kin to whatever the noted state was kin to. */
  lemma FormKeepsInvariant(sys: System, next: System, noted: DocumentVersionState)
    requires Invariant(sys) && Known(sys, noted) && IsArchivedForm(noted, next.current)
    requires next.nextEvent == sys.nextEvent && next.commits == sys.commits
    requires forall x :: Known(next, x) ==> Known(sys, x) || x == next.current
    ensures Invariant(next)
  {
    forall x, y | Known(next, x) && Known(next, y) ensures Kin(x, y) {
      assert x != next.current ==> Kin(x, noted);
      assert y != next.current ==> Kin(noted, y);
    }
  }

  lemma TakeKeepsInvariant(sys: System, step: Step)
    requires Invariant(sys)
    ensures Invariant(Take(sys, step))
  {
    var next := Take(sys, step);
    match step
    case Read(c) => SpreadingKeepsInvariant(sys, next);
    case List(k) => SpreadingKeepsInvariant(sys, next);
    case Mutate(c, op, performer, now) =>
      if c < |sys.clients| && sys.clients[c].Some? {
        MutateOutcome(sys, sys.clients[c].value, op, performer, now);
        if next.commits == sys.commits {
          SpreadingKeepsInvariant(sys, next);
        } else {
          FreshKeepsInvariant(sys, next, Commit(sys.clients[c].value, sys.current, op, performer));
        }
      }
    case ArchiveListed(k, newVersion, archivedBy, now) =>
      if k < |sys.releases| && sys.releases[k].Some? {
        var noted := sys.releases[k].value;
        ArchiveOutcome(sys, noted, newVersion, archivedBy, now);
        if next.current == sys.current {
          SpreadingKeepsInvariant(sys, next);
        } else {
          FormKeepsInvariant(sys, next, noted.state);
        }
      }
  }

  /**
   In every interleaving, what is remembered under the stored token is the stored state or has been archived since.
   */
  lemma {:induction false} RunKeepsInvariant(sys: System, steps: seq<Step>)
    requires IsStart(sys)
    ensures Invariant(Run(sys, steps))
    decreases |steps|
  {
    if steps != [] {
      RunKeepsInvariant(sys, steps[..|steps| - 1]);
      TakeKeepsInvariant(Run(sys, steps[..|steps| - 1]), steps[|steps| - 1]);
    }
  }

  /**
   In any interleaving, a committed operation ran on something else than its client had read if and only if it ran on
   an archived state and the client had read it approved, or archived with other marks: archiving keeps the token.
   So a client that read neither an approved nor an archived state always runs on exactly what it read.
   */
  lemma CommitsRunOnWhatWasRead(sys: System, steps: seq<Step>, n: nat)
    requires IsStart(sys) && n < |Run(sys, steps).commits|
    ensures var commit := Run(sys, steps).commits[n];
            && (commit.ranOn != commit.readState <==> ArchivedSinceRead(commit.readState, commit.ranOn))
            && (!IsReleased(commit.readState) ==> commit.ranOn == commit.readState)
  {
    RunKeepsInvariant(sys, steps);
    assert CommitFits(Run(sys, steps).commits[n]);
  }

  // --- Stores that let one writer in at a time ---

  /**
   Every release writes its archived form directly after listing, as under a lock taken when the transaction begins.
   */
  ghost predicate OneWriterAtATime(steps: seq<Step>) {
    forall i :: 0 <= i < |steps| && steps[i].ArchiveListed? ==> i > 0 && steps[i - 1] == List(steps[i].release)
  }

  /** No release has overwritten anything but the state it had noted. */
  ghost predicate NothingOverwritten(sys: System) {
    forall i :: 0 <= i < |sys.writeBacks| ==>
      && sys.writeBacks[i].noted == sys.writeBacks[i].replaced
      && sys.writeBacks[i].notedAfter == sys.writeBacks[i].writtenAfter
  }

  lemma OneWriterFront(steps: seq<Step>)
    requires OneWriterAtATime(steps) && steps != []
    ensures OneWriterAtATime(steps[..|steps| - 1])
  {
    var front := steps[..|steps| - 1];
    forall i | 0 <= i < |front| && front[i].ArchiveListed? ensures i > 0 && front[i - 1] == List(front[i].release) {
      assert front[i] == steps[i];
    }
  }

  lemma ListedIsCurrent(sys: System, k: nat)
    ensures var next := Take(sys, List(k));
            k < |next.releases| ==> next.releases[k] == Some(Noted(next.current, |next.commits|))
  {
  }

  lemma StepOverwritesNothing(sys: System, step: Step)
    requires NothingOverwritten(sys)
    requires step.ArchiveListed? && step.release < |sys.releases| ==>
               sys.releases[step.release] == Some(Noted(sys.current, |sys.commits|))
    ensures NothingOverwritten(Take(sys, step))
  {
    match step
    case Read(c) =>
    case List(k) =>
    case Mutate(c, op, performer, now) =>
      if c < |sys.clients| && sys.clients[c].Some? {
        MutateOutcome(sys, sys.clients[c].value, op, performer, now);
      }
    case ArchiveListed(k, newVersion, archivedBy, now) =>
      if k < |sys.releases| && sys.releases[k].Some? {
        ArchiveOutcome(sys, sys.releases[k].value, newVersion, archivedBy, now);
      }
  }

  lemma {:induction false} OneWriterOverwritesNothing(sys: System, steps: seq<Step>)
    requires IsStart(sys) && OneWriterAtATime(steps)
    ensures NothingOverwritten(Run(sys, steps))
    decreases |steps|
  {
    if steps != [] {
      var front, last := steps[..|steps| - 1], steps[|steps| - 1];
      OneWriterFront(steps);
      OneWriterOverwritesNothing(sys, front);
      if last.ArchiveListed? {
        assert front[|front| - 1] == List(last.release);
        ListedIsCurrent(Run(sys, front[..|front| - 1]), last.release);
      }
      StepOverwritesNothing(Run(sys, front), last);
    }
  }

  lemma TakeKeepsHistory(sys: System, step: Step)
    ensures sys.writeBacks <= Take(sys, step).writeBacks && sys.commits <= Take(sys, step).commits
  {
    if step.Mutate? && step.client < |sys.clients| && sys.clients[step.client].Some? {
      MutateOutcome(sys, sys.clients[step.client].value, step.op, step.performer, step.now);
    }
  }

  ghost predicate SerialCommitFits(c: Commit) {
    c.ranOn != c.readState <==> c.readState.status == Approved && c.ranOn.status == Archived
  }

  /** What is remembered under the stored token is the stored state, or the approved one it was archived from. */
  ghost predicate SerialInvariant(sys: System) {
    && (forall x :: Known(sys, x) ==>
          && TokenBelow(x, sys.nextEvent)
          && (x.lastEventId == sys.current.lastEventId && x != sys.current ==>
                x.status == Approved && sys.current.status == Archived))
    && (forall i :: 0 <= i < |sys.commits| ==> SerialCommitFits(sys.commits[i]))
  }

  lemma SerialMutate(sys: System, next: System, commit: Commit)
    requires SerialInvariant(sys) && next.current.lastEventId == Some(sys.nextEvent) && next.nextEvent > sys.nextEvent
    requires forall x :: Known(next, x) ==> Known(sys, x) || x == next.current
    requires next.commits == sys.commits + [commit] && commit.ranOn == sys.current
    requires Known(sys, commit.readState) && commit.readState.lastEventId == sys.current.lastEventId
    ensures SerialInvariant(next)
  {
    forall x | Known(next, x)
      ensures TokenBelow(x, next.nextEvent)
      ensures x.lastEventId == next.current.lastEventId ==> x == next.current
    {
      assert x != next.current ==> TokenBelow(x, sys.nextEvent);
    }
  }

  lemma SerialTake(sys: System, step: Step)
    requires SerialInvariant(sys) && NothingOverwritten(Take(sys, step))
    ensures SerialInvariant(Take(sys, step))
  {
    var next := Take(sys, step);
    match step
    case Read(c) =>
    case List(k) =>
    case Mutate(c, op, performer, now) =>
      if c < |sys.clients| && sys.clients[c].Some? {
        MutateOutcome(sys, sys.clients[c].value, op, performer, now);
        if next.commits != sys.commits {
          SerialMutate(sys, next, Commit(sys.clients[c].value, sys.current, op, performer));
        }
      }
    case ArchiveListed(k, newVersion, archivedBy, now) =>
      if k < |sys.releases| && sys.releases[k].Some? {
        ArchiveOutcome(sys, sys.releases[k].value, newVersion, archivedBy, now);
        if next.writeBacks != sys.writeBacks {
          assert next.writeBacks[|sys.writeBacks|].noted == sys.current;
        }
      }
  }

  lemma {:induction false} SerialRun(sys: System, steps: seq<Step>)
    requires IsStart(sys) && NothingOverwritten(Run(sys, steps))
    ensures SerialInvariant(Run(sys, steps))
    decreases |steps|
  {
    if steps != [] {
      var front := Run(sys, steps[..|steps| - 1]);
      TakeKeepsHistory(front, steps[|steps| - 1]);
      assert forall i :: 0 <= i < |front.writeBacks| ==> front.writeBacks[i] == Run(sys, steps).writeBacks[i];
      SerialRun(sys, steps[..|steps| - 1]);
      SerialTake(front, steps[|steps| - 1]);
    }
  }

  /**
   With one writer at a time, a committed operation ran on something else than its client had read if and only if the
   client had read it approved and it ran on it archived; a client that read no approved state runs on what it read.
   */
  lemma SerialCommitsRunOnWhatWasRead(sys: System, steps: seq<Step>, n: nat)
    requires IsStart(sys) && OneWriterAtATime(steps) && n < |Run(sys, steps).commits|
    ensures var commit := Run(sys, steps).commits[n];
            && (commit.ranOn != commit.readState <==>
                commit.readState.status == Approved && commit.ranOn.status == Archived)
            && (commit.readState.status != Approved ==> commit.ranOn == commit.readState)
  {
    OneWriterOverwritesNothing(sys, steps);
    SerialRun(sys, steps);
    assert SerialCommitFits(Run(sys, steps).commits[n]);
  }

  // --- What a stale token does ---

  function StartWith(s: DocumentVersionState, nextEvent: nat): System {
    System(s, nextEvent, [None], [None], [], [])
  }

  /** The failing case exists, with one writer at a time: read, supersede, then mutate with the token still current. */
  lemma SupersedeSlipsThrough(s: DocumentVersionState, k: nat, owner: string, title: string)
    requires s.status == Approved && s.ownerUserId == Some(owner) && s.lastEventId == Some(k) && StateInvariants(s)
    ensures var steps := [Read(0), List(0), ArchiveListed(0, s.version + 1, owner, ""),
                          Mutate(0, UpdateMetadata(Some(title), None), Actor(owner, User), "")];
            var after := Run(StartWith(s, k + 1), steps);
            && OneWriterAtATime(steps) && IsStart(StartWith(s, k + 1))
            && |after.commits| == 1 && after.commits[0].readState == s && after.commits[0].ranOn != s
  {
    var update := Mutate(0, UpdateMetadata(Some(title), None), Actor(owner, User), "");
    var archive := ArchiveListed(0, s.version + 1, owner, "");
    var read := System(s, k + 1, [Some(s)], [None], [], []);
    var listed := System(s, k + 1, [Some(s)], [Some(Noted(s, 0))], [], []);
    RunGoesOn(StartWith(s, k + 1), [Read(0), List(0), archive, update], Read(0), [List(0), archive, update], read);
    RunGoesOn(read, [List(0), archive, update], List(0), [archive, update], listed);
    SupersedeThenUpdate(listed, s, owner, title);
  }

  lemma SupersedeThenUpdate(listed: System, s: DocumentVersionState, owner: string, title: string)
    requires s.status == Approved && s.ownerUserId == Some(owner) && StateInvariants(s)
    requires listed.current == s && listed.commits == []
    requires listed.clients == [Some(s)] && listed.releases == [Some(Noted(s, 0))]
    ensures var after := Run(listed, [ArchiveListed(0, s.version + 1, owner, ""),
                                      Mutate(0, UpdateMetadata(Some(title), None), Actor(owner, User), "")]);
            |after.commits| == 1 && after.commits[0].readState == s && after.commits[0].ranOn != s
  {
    var archive, update := ArchiveListed(0, s.version + 1, owner, ""),
                           Mutate(0, UpdateMetadata(Some(title), None), Actor(owner, User), "");
    ArchiveKeepsInvariants(s, s.version + 1, owner, "");
    var superseded := Take(listed, archive);
    assert superseded.current == Archive(s, s.version + 1, owner, "");
    RunGoesOn(listed, [archive, update], archive, [update], superseded);
    RunGoesOn(superseded, [update], update, [], Take(superseded, update));
    StaleTokenIsAdmitted(superseded, s, owner, title);
  }

  /** An owner whose last read carries the current token commits on whatever is stored now. */
  lemma StaleTokenIsAdmitted(sys: System, s: DocumentVersionState, owner: string, title: string)
    requires sys.clients == [Some(s)] && sys.commits == [] && StateInvariants(sys.current)
    requires sys.current.lastEventId == s.lastEventId && sys.current.ownerUserId == Some(owner)
    requires sys.current.status == Archived
    ensures var after := Take(sys, Mutate(0, UpdateMetadata(Some(title), None), Actor(owner, User), ""));
            |after.commits| == 1 && after.commits[0].readState == s && after.commits[0].ranOn == sys.current
  {
    TitleUpdateIsStored(sys.current, owner, title, Event(sys.nextEvent, "", owner));
  }

  lemma TitleUpdateIsStored(s: DocumentVersionState, owner: string, title: string, e: Event)
    requires StateInvariants(s) && s.ownerUserId == Some(owner)
    ensures Operate(s, UpdateMetadata(Some(title), None), Actor(owner, User), e).Ok?
  {
    var titled := if Text.Strip(title) != "" then s.(title := Text.Strip(title)) else s;
    assert StateInvariants(Stamp(titled, e));
  }

  /**
   With two releases under way the simple condition fails: both listed the approved state, and a client that read what
   the first has archived commits on what the second has archived, under the token of both. The second can write because
   the version released by the first has itself been archived in between.
   */
  lemma ArchivedTwiceSlipsThrough(s: DocumentVersionState, k: nat, owner: string, title: string)
    requires s.status == Approved && s.ownerUserId == Some(owner) && s.lastEventId == Some(k) && StateInvariants(s)
    ensures var start := System(s, k + 1, [None], [None, None], [], []);
            var steps := [List(0), List(1), ArchiveListed(0, s.version + 1, owner, ""), Read(0),
                          ArchiveListed(1, s.version + 2, owner, ""),
                          Mutate(0, UpdateMetadata(Some(title), None), Actor(owner, User), "")];
            && IsStart(start) && |Run(start, steps).commits| == 1
            && Run(start, steps).commits[0].readState.status == Archived
            && Run(start, steps).commits[0].ranOn != Run(start, steps).commits[0].readState
  {
    var update := Mutate(0, UpdateMetadata(Some(title), None), Actor(owner, User), "");
    var one, two := ArchiveListed(0, s.version + 1, owner, ""), ArchiveListed(1, s.version + 2, owner, "");
    var start := System(s, k + 1, [None], [None, None], [], []);
    var first := System(s, k + 1, [None], [Some(Noted(s, 0)), None], [], []);
    var both := System(s, k + 1, [None], [Some(Noted(s, 0)), Some(Noted(s, 0))], [], []);
    RunGoesOn(start, [List(0), List(1), one, Read(0), two, update], List(0),
              [List(1), one, Read(0), two, update], first);
    RunGoesOn(first, [List(1), one, Read(0), two, update], List(1), [one, Read(0), two, update], both);
    ArchiveTwiceThenUpdate(both, s, owner, title);
  }

  lemma ArchiveTwiceThenUpdate(both: System, s: DocumentVersionState, owner: string, title: string)
    requires s.status == Approved && s.ownerUserId == Some(owner) && StateInvariants(s)
    requires both.current == s && both.commits == []
    requires both.clients == [None] && both.releases == [Some(Noted(s, 0)), Some(Noted(s, 0))]
    ensures var after := Run(both, [ArchiveListed(0, s.version + 1, owner, ""), Read(0),
                                    ArchiveListed(1, s.version + 2, owner, ""),
                                    Mutate(0, UpdateMetadata(Some(title), None), Actor(owner, User), "")]);
            |after.commits| == 1 && after.commits[0].readState == Archive(s, s.version + 1, owner, "")
            && after.commits[0].ranOn == Archive(s, s.version + 2, owner, "")
  {
    var update := Mutate(0, UpdateMetadata(Some(title), None), Actor(owner, User), "");
    var one, two := ArchiveListed(0, s.version + 1, owner, ""), ArchiveListed(1, s.version + 2, owner, "");
    ArchiveKeepsInvariants(s, s.version + 1, owner, "");
    ArchiveKeepsInvariants(s, s.version + 2, owner, "");
    var once := Take(both, one);
    assert once.current == Archive(s, s.version + 1, owner, "");
    RunGoesOn(both, [one, Read(0), two, update], one, [Read(0), two, update], once);
    var read := once.(clients := [Some(once.current)]);
    RunGoesOn(once, [Read(0), two, update], Read(0), [two, update], read);
    var twice := Take(read, two);
    assert twice.current == Archive(s, s.version + 2, owner, "");
    RunGoesOn(read, [two, update], two, [update], twice);
    RunGoesOn(twice, [update], update, [], Take(twice, update));
    StaleTokenIsAdmitted(twice, once.current, owner, title);
  }

  /** A run may be taken apart at its first step as well. */
  lemma {:induction false} RunFirst(sys: System, a: Step, rest: seq<Step>)
    ensures Run(sys, [a] + rest) == Run(Take(sys, a), rest)
  {
    if rest == [] {
      assert ([a] + rest)[..0] == [];
    } else {
      var front, last := rest[..|rest| - 1], rest[|rest| - 1];
      RunFirst(sys, a, front);
      assert ([a] + rest)[..|rest|] == [a] + front;
    }
  }

  /** The same with the state after the first step at hand. */
  lemma RunGoesOn(sys: System, steps: seq<Step>, a: Step, rest: seq<Step>, next: System)
    requires steps == [a] + rest && Take(sys, a) == next
    ensures Run(sys, steps) == Run(next, rest)
  {
    RunFirst(sys, a, rest);
  }

  // --- Clients that only add change requests ---

  ghost predicate OnlyAddsChanges(steps: seq<Step>) {
    forall i :: 0 <= i < |steps| && steps[i].Mutate? ==> steps[i].op.AddChangeRequest?
  }

  /** The requests the commits asked for, in commit order. */
  function Requested(commits: seq<Commit>): seq<ChangeRequest> {
    if commits == [] then []
    else
      var last := commits[|commits| - 1];
      Requested(commits[..|commits| - 1])
      + (if last.op.AddChangeRequest? then
           [ChangeRequest(Text.Strip(last.op.changeId), Text.Strip(last.op.reason), last.performer.userId)]
         else [])
  }

  /** Every successful request is stored, behind those that were there, in commit order. */
  ghost predicate AllPresent(initial: seq<ChangeRequest>, sys: System) {
    sys.current.changeRequests == initial + Requested(sys.commits)
  }

  /** No commit has fallen between a release's listing and its write. */
  ghost predicate NoCommitBetween(sys: System) {
    forall i :: 0 <= i < |sys.writeBacks| ==> sys.writeBacks[i].notedAfter == sys.writeBacks[i].writtenAfter
  }

  function Ids(requests: seq<ChangeRequest>): (ids: seq<string>)
    ensures |ids| == |requests| && forall i :: 0 <= i < |requests| ==> ids[i] == Text.Strip(requests[i].changeId)
  {
    seq(|requests|, i requires 0 <= i < |requests| => Text.Strip(requests[i].changeId))
  }

  /** As long as nothing was lost, releases remember the requests of the commits up to their listing. */
  ghost predicate RequestsFollow(initial: seq<ChangeRequest>, sys: System) {
    && AllPresent(initial, sys) && |Requested(sys.commits)| == |sys.commits|
    && Distinct(Ids(sys.current.changeRequests))
    && (forall i :: 0 <= i < |sys.releases| && sys.releases[i].Some? ==>
          NotedFits(initial, sys.commits, sys.releases[i].value))
  }

  ghost predicate NotedFits(initial: seq<ChangeRequest>, commits: seq<Commit>, noted: Noted) {
    noted.after <= |commits| && noted.state.changeRequests == initial + Requested(commits[..noted.after])
  }

  lemma AddedRequestIsRecorded(s: DocumentVersionState, op: Operation, performer: Actor, e: Event)
    requires op.AddChangeRequest? && Operate(s, op, performer, e).Ok?
    ensures Operate(s, op, performer, e).value.changeRequests
            == s.changeRequests + [ChangeRequest(Text.Strip(op.changeId), Text.Strip(op.reason), performer.userId)]
    ensures Text.Strip(op.changeId) !in Ids(s.changeRequests)
  {
  }

  lemma AppendedCommit(commits: seq<Commit>, c: Commit)
    requires c.op.AddChangeRequest?
    ensures Requested(commits + [c]) == Requested(commits)
              + [ChangeRequest(Text.Strip(c.op.changeId), Text.Strip(c.op.reason), c.performer.userId)]
  {
    assert (commits + [c])[..|commits|] == commits;
  }

  lemma EarlierNotedStillFits(initial: seq<ChangeRequest>, commits: seq<Commit>, more: seq<Commit>, noted: Noted)
    requires NotedFits(initial, commits, noted) && commits <= more
    ensures NotedFits(initial, more, noted)
  {
    assert more[..noted.after] == commits[..noted.after];
  }

  lemma DistinctIdsGrow(requests: seq<ChangeRequest>, r: ChangeRequest)
    requires Distinct(Ids(requests)) && Text.Strip(r.changeId) !in Ids(requests)
    ensures Distinct(Ids(requests + [r]))
  {
    forall i | 0 <= i < |requests| ensures Ids(requests + [r])[i] != Text.Strip(r.changeId) {
      assert Ids(requests + [r])[i] == Ids(requests)[i];
    }
    forall i, j | 0 <= i < j < |requests| ensures Ids(requests + [r])[i] != Ids(requests + [r])[j] {
      assert Ids(requests)[i] != Ids(requests)[j];
    }
  }

  lemma CommitKeepsRequests(initial: seq<ChangeRequest>, sys: System, next: System, c: Commit)
    requires RequestsFollow(initial, sys) && c.op.AddChangeRequest? && next.commits == sys.commits + [c]
    requires next.releases == sys.releases
    requires var r := ChangeRequest(Text.Strip(c.op.changeId), Text.Strip(c.op.reason), c.performer.userId);
             && next.current.changeRequests == sys.current.changeRequests + [r]
             && r.changeId !in Ids(sys.current.changeRequests)
    ensures RequestsFollow(initial, next)
  {
    AppendedCommit(sys.commits, c);
    Text.StripIsIdempotent(c.op.changeId);
    DistinctIdsGrow(sys.current.changeRequests,
                    ChangeRequest(Text.Strip(c.op.changeId), Text.Strip(c.op.reason), c.performer.userId));
    forall i | 0 <= i < |next.releases| && next.releases[i].Some?
      ensures NotedFits(initial, next.commits, next.releases[i].value)
    {
      EarlierNotedStillFits(initial, sys.commits, next.commits, sys.releases[i].value);
    }
  }

  lemma MutateKeepsRequests(initial: seq<ChangeRequest>, sys: System, c: nat, op: Operation, performer: Actor,
                            now: Moment)
    requires RequestsFollow(initial, sys) && op.AddChangeRequest?
    ensures RequestsFollow(initial, Take(sys, Mutate(c, op, performer, now)))
  {
    var next := Take(sys, Mutate(c, op, performer, now));
    if next.commits != sys.commits {
      AddedRequestIsRecorded(sys.current, op, performer, Event(sys.nextEvent, now, performer.userId));
      CommitKeepsRequests(initial, sys, next, next.commits[|sys.commits|]);
    }
  }

  /** A write with no commit since the listing stores the requests that are there. */
  lemma ArchiveKeepsRequests(initial: seq<ChangeRequest>, sys: System, k: nat, newVersion: int,
                             archivedBy: string, now: Moment)
    requires RequestsFollow(initial, sys) && NoCommitBetween(Take(sys, ArchiveListed(k, newVersion, archivedBy, now)))
    ensures RequestsFollow(initial, Take(sys, ArchiveListed(k, newVersion, archivedBy, now)))
  {
    if k < |sys.releases| && sys.releases[k].Some? {
      var noted, next := sys.releases[k].value, Take(sys, ArchiveListed(k, newVersion, archivedBy, now));
      ArchiveOutcome(sys, noted, newVersion, archivedBy, now);
      assert NotedFits(initial, sys.commits, noted);
      if next.writeBacks != sys.writeBacks {
        assert next.writeBacks[|sys.writeBacks|].notedAfter == next.writeBacks[|sys.writeBacks|].writtenAfter;
        assert sys.commits[..|sys.commits|] == sys.commits;
      }
    }
  }

  lemma StepKeepsRequests(initial: seq<ChangeRequest>, sys: System, step: Step)
    requires RequestsFollow(initial, sys) && NoCommitBetween(Take(sys, step))
    requires step.Mutate? ==> step.op.AddChangeRequest?
    ensures RequestsFollow(initial, Take(sys, step))
  {
    match step
    case Read(c) =>
    case List(k) => assert sys.commits[..|sys.commits|] == sys.commits;
    case Mutate(c, op, performer, now) => MutateKeepsRequests(initial, sys, c, op, performer, now);
    case ArchiveListed(k, newVersion, archivedBy, now) =>
      ArchiveKeepsRequests(initial, sys, k, newVersion, archivedBy, now);
  }

  /** The write that follows a commit takes back what was asked for since the listing. */
  lemma LateWriteLosesRequests(initial: seq<ChangeRequest>, sys: System, step: Step)
    requires RequestsFollow(initial, sys) && NoCommitBetween(sys) && !NoCommitBetween(Take(sys, step))
    ensures !AllPresent(initial, Take(sys, step))
  {
    assert step.ArchiveListed? by {
      if step.Mutate? && step.client < |sys.clients| && sys.clients[step.client].Some? {
        MutateOutcome(sys, sys.clients[step.client].value, step.op, step.performer, step.now);
      }
    }
    var noted, next := sys.releases[step.release].value, Take(sys, step);
    ArchiveOutcome(sys, noted, step.newVersion, step.archivedBy, step.now);
    assert NotedFits(initial, sys.commits, noted);
    assert noted.after < |sys.commits|;
    RequestedIsShorter(sys.commits, noted.after);
  }

  lemma {:induction false} RequestedIsShorter(commits: seq<Commit>, n: nat)
    requires n < |commits| && |Requested(commits)| == |commits|
    ensures |Requested(commits[..n])| < |Requested(commits)|
  {
    RequestedIsBounded(commits[..n]);
  }

  lemma {:induction false} RequestedIsBounded(commits: seq<Commit>)
    ensures |Requested(commits)| <= |commits|
  {
    if commits != [] {
      RequestedIsBounded(commits[..|commits| - 1]);
    }
  }

  lemma OnlyAddsFront(steps: seq<Step>)
    requires OnlyAddsChanges(steps) && steps != []
    ensures OnlyAddsChanges(steps[..|steps| - 1])
  {
    var front := steps[..|steps| - 1];
    forall i | 0 <= i < |front| && front[i].Mutate? ensures front[i].op.AddChangeRequest? {
      assert front[i] == steps[i];
    }
  }

  lemma {:induction false} RequestsFollowRun(sys: System, steps: seq<Step>)
    requires IsStart(sys) && OnlyAddsChanges(steps) && Distinct(Ids(sys.current.changeRequests))
    requires NoCommitBetween(Run(sys, steps))
    ensures RequestsFollow(sys.current.changeRequests, Run(sys, steps))
    decreases |steps|
  {
    if steps != [] {
      var front := Run(sys, steps[..|steps| - 1]);
      OnlyAddsFront(steps);
      TakeKeepsHistory(front, steps[|steps| - 1]);
      assert forall i :: 0 <= i < |front.writeBacks| ==> front.writeBacks[i] == Run(sys, steps).writeBacks[i];
      RequestsFollowRun(sys, steps[..|steps| - 1]);
      StepKeepsRequests(sys.current.changeRequests, front, steps[|steps| - 1]);
    }
  }

  /** Without a commit between a listing and its write, all successful requests are stored, with distinct ids. */
  lemma NoChangeRequestIsLost(sys: System, steps: seq<Step>)
    requires IsStart(sys) && OnlyAddsChanges(steps) && Distinct(Ids(sys.current.changeRequests))
    requires NoCommitBetween(Run(sys, steps))
    ensures var after := Run(sys, steps);
            && after.current.changeRequests == sys.current.changeRequests + Requested(after.commits)
            && |after.commits| == |Requested(after.commits)|
            && Distinct(Ids(after.current.changeRequests))
  {
    RequestsFollowRun(sys, steps);
  }

  /** With one writer at a time none is lost in any interleaving. */
  lemma NoChangeRequestIsLostSerially(sys: System, steps: seq<Step>)
    requires IsStart(sys) && OnlyAddsChanges(steps) && Distinct(Ids(sys.current.changeRequests))
    requires OneWriterAtATime(steps)
    ensures var after := Run(sys, steps);
            && after.current.changeRequests == sys.current.changeRequests + Requested(after.commits)
            && |after.commits| == |Requested(after.commits)|
            && Distinct(Ids(after.current.changeRequests))
  {
    OneWriterOverwritesNothing(sys, steps);
    NoChangeRequestIsLost(sys, steps);
  }

  /** At every point of the run, from its end back to its start, all requests successful by then are stored. */
  ghost predicate AlwaysPresent(sys: System, steps: seq<Step>)
    decreases |steps|
  {
    && AllPresent(sys.current.changeRequests, Run(sys, steps))
    && (steps != [] ==> AlwaysPresent(sys, steps[..|steps| - 1]))
  }

  /**
   The exact condition: all successful requests are stored at every point of a run if and only if no commit falls
   between a release's listing of the versions and its write of the archived form.
   */
  lemma {:induction false} RequestsAreLostIffCommitBetween(sys: System, steps: seq<Step>)
    requires IsStart(sys) && OnlyAddsChanges(steps) && Distinct(Ids(sys.current.changeRequests))
    ensures AlwaysPresent(sys, steps) <==> NoCommitBetween(Run(sys, steps))
    decreases |steps|
  {
    if steps != [] {
      var front, last := steps[..|steps| - 1], steps[|steps| - 1];
      OnlyAddsFront(steps);
      RequestsAreLostIffCommitBetween(sys, front);
      TakeKeepsHistory(Run(sys, front), last);
      assert forall i :: 0 <= i < |Run(sys, front).writeBacks| ==>
               Run(sys, front).writeBacks[i] == Run(sys, steps).writeBacks[i];
      if NoCommitBetween(Run(sys, front)) {
        RequestsFollowRun(sys, front);
        if NoCommitBetween(Run(sys, steps)) {
          RequestsFollowRun(sys, steps);
        } else {
          LateWriteLosesRequests(sys.current.changeRequests, Run(sys, front), last);
        }
      }
    }
  }

  /** Such a run exists: a change request committed between listing and writing is gone, and the old token is back. */
  lemma LateWriteLosesARequest(s: DocumentVersionState, k: nat, owner: string, id: string, reason: string)
    requires s.status == Approved && s.ownerUserId == Some(owner) && s.lastEventId == Some(k) && StateInvariants(s)
    requires Text.Strip(id) != "" && Text.Strip(reason) != "" && !HasChange(s.changeRequests, Text.Strip(id))
    ensures var steps := [List(0), Read(0), Mutate(0, AddChangeRequest(id, reason), Actor(owner, User), ""),
                          ArchiveListed(0, s.version + 1, owner, "")];
            var after := Run(StartWith(s, k + 1), steps);
            && IsStart(StartWith(s, k + 1)) && |after.commits| == 1
            && after.current.changeRequests == s.changeRequests && after.current.lastEventId == s.lastEventId
  {
    var add := Mutate(0, AddChangeRequest(id, reason), Actor(owner, User), "");
    var archive := ArchiveListed(0, s.version + 1, owner, "");
    var listed := System(s, k + 1, [None], [Some(Noted(s, 0))], [], []);
    var read := System(s, k + 1, [Some(s)], [Some(Noted(s, 0))], [], []);
    RunGoesOn(StartWith(s, k + 1), [List(0), Read(0), add, archive], List(0), [Read(0), add, archive], listed);
    RunGoesOn(listed, [Read(0), add, archive], Read(0), [add, archive], read);
    RequestThenArchive(read, s, owner, id, reason);
  }

  lemma RequestThenArchive(read: System, s: DocumentVersionState, owner: string, id: string, reason: string)
    requires s.status == Approved && s.ownerUserId == Some(owner) && StateInvariants(s)
    requires Text.Strip(id) != "" && Text.Strip(reason) != "" && !HasChange(s.changeRequests, Text.Strip(id))
    requires read.current == s && read.commits == []
    requires read.clients == [Some(s)] && read.releases == [Some(Noted(s, 0))]
    ensures var after := Run(read, [Mutate(0, AddChangeRequest(id, reason), Actor(owner, User), ""),
                                    ArchiveListed(0, s.version + 1, owner, "")]);
            |after.commits| == 1
            && after.current.changeRequests == s.changeRequests && after.current.lastEventId == s.lastEventId
  {
    var add := Mutate(0, AddChangeRequest(id, reason), Actor(owner, User), "");
    var archive := ArchiveListed(0, s.version + 1, owner, "");
    RequestIsStored(s, owner, id, reason, Event(read.nextEvent, "", owner));
    var added := Take(read, add);
    assert |added.commits| == 1 && added.releases == [Some(Noted(s, 0))];
    RunGoesOn(read, [add, archive], add, [archive], added);
    RunGoesOn(added, [archive], archive, [], Take(added, archive));
    ListedStateReturns(added, s, s.version + 1, owner);
  }

  lemma ListedStateReturns(sys: System, s: DocumentVersionState, newVersion: int, archivedBy: string)
    requires sys.releases == [Some(Noted(s, 0))] && s.status == Approved && StateInvariants(s)
    ensures var next := Take(sys, ArchiveListed(0, newVersion, archivedBy, ""));
            && next.commits == sys.commits
            && next.current.changeRequests == s.changeRequests && next.current.lastEventId == s.lastEventId
  {
    ArchiveKeepsInvariants(s, newVersion, archivedBy, "");
    ArchiveOutcome(sys, Noted(s, 0), newVersion, archivedBy, "");
  }

  lemma RequestIsStored(s: DocumentVersionState, owner: string, id: string, reason: string, e: Event)
    requires StateInvariants(s) && s.ownerUserId == Some(owner)
    requires Text.Strip(id) != "" && Text.Strip(reason) != "" && !HasChange(s.changeRequests, Text.Strip(id))
    ensures Operate(s, AddChangeRequest(id, reason), Actor(owner, User), e).Ok?
  {
    var added := s.(changeRequests := s.changeRequests + [ChangeRequest(Text.Strip(id), Text.Strip(reason), owner)]);
    assert StateInvariants(Stamp(added, e));
  }
}
