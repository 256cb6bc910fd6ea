/** Relational workflow profiles: the validator, the runtime form, and the walk through its phases. */
module WorkflowProfiles {
  import opened Sequences
  import opened Contracts
  import opened Text

  datatype Role = Editor | Reviewer | Approver | QmbRole | NoRole | UnknownRole(text: string)

  datatype Policy = OneOfPool | AllAssigned | NoPolicy | UnknownPolicy(text: string)

  datatype ControlClass = Controlled | ControlledShort | External | RecordClass

  /** A status word as stored: one of the known ones, or any other text. */
  datatype Word = Known(status: DocumentStatus) | Other(text: string)

  /** A transition key in the runtime vocabulary. */
  datatype Edge = Edge(source: DocumentStatus, target: DocumentStatus)

  datatype TransitionDefinition = TransitionDefinition(
    transitionNo: int,
    fromStatus: Word,
    toStatus: Word,
    requiredRole: Role,
    decisionPolicy: Policy,
    signatureRequired: bool,
    fourEyesRequired: bool,
    revokeIfChanged: bool,
    deadlineSeconds: Option<int>,
    isEnabled: bool)

  datatype ProfileDefinition = ProfileDefinition(
    profileCode: string,
    profileLabel: string,
    controlClass: ControlClass,
    releaseEvidenceMode: string,
    requiresEditors: bool,
    requiresReviewers: bool,
    requiresApprovers: bool,
    allowsContentChanges: bool,
    transitions: seq<TransitionDefinition>)

  predicate HasCode(profiles: seq<ProfileDefinition>, code: string) {
    exists i :: 0 <= i < |profiles| && profiles[i].profileCode == code
  }

  datatype WorkflowProfile = WorkflowProfile(
    profileId: string,
    profileLabel: string,
    phases: seq<DocumentStatus>,
    fourEyesRequired: bool,
    controlClass: ControlClass,
    signatureRequiredTransitions: seq<Edge>,
    releaseEvidenceMode: string,
    requiresEditors: bool,
    requiresReviewers: bool,
    requiresApprovers: bool,
    allowsContentChanges: bool)

  const DRAFT := Known(Draft)
  const IN_REVIEW := Known(InReview)
  const IN_APPROVAL := Known(InApproval)
  const APPROVED := Known(Approved)

  predicate IsAllowedStatus(w: Word) {
    w == DRAFT || w == IN_REVIEW || w == IN_APPROVAL || w == APPROVED
  }

  function ExpectedRole(fromStatus: Word, toStatus: Word): Role {
    if fromStatus == DRAFT then Editor
    else if fromStatus == IN_REVIEW then Reviewer
    else if fromStatus == IN_APPROVAL then Approver
    else if toStatus == APPROVED then Approver
    else NoRole
  }

  function IsEnabled(): TransitionDefinition -> bool {
    (t: TransitionDefinition) => t.isEnabled
  }

  function Enabled(p: ProfileDefinition): seq<TransitionDefinition> {
    Keep(p.transitions, IsEnabled())
  }

  // --- What the validator accepts ---

  predicate TransitionFits(t: TransitionDefinition) {
    && IsAllowedStatus(t.fromStatus) && IsAllowedStatus(t.toStatus)
    && (t.decisionPolicy == OneOfPool || t.decisionPolicy == NoPolicy)
    && t.deadlineSeconds.None? && !t.revokeIfChanged
    && t.requiredRole == ExpectedRole(t.fromStatus, t.toStatus)
  }

  /** Each transition fits, no status is left twice, and each starts where the one before it ended. */
  ghost predicate IsLinear(ts: seq<TransitionDefinition>, n: nat)
    requires n <= |ts|
  {
    && (forall i :: 0 <= i < n ==> TransitionFits(ts[i]))
    && (forall i, j :: 0 <= i < j < n ==> ts[i].fromStatus != ts[j].fromStatus)
    && (forall i :: 0 < i < n ==> ts[i - 1].toStatus == ts[i].fromStatus)
  }

  /** Enabled transitions form one path from DRAFT to APPROVED that never leaves a status twice. */
  ghost predicate IsPath(ts: seq<TransitionDefinition>) {
    && ts != []
    && ts[0].fromStatus == DRAFT && ts[0].toStatus != DRAFT && ts[|ts| - 1].toStatus == APPROVED
    && IsLinear(ts, |ts|)
  }

  predicate IsLabelled(p: ProfileDefinition) {
    Strip(p.profileCode) != "" && Strip(p.profileLabel) != ""
  }

  predicate IsNumbered(ts: seq<TransitionDefinition>) {
    forall i :: 0 <= i < |ts| ==> ts[i].transitionNo == i + 1
  }

  ghost predicate Accepted(p: ProfileDefinition) {
    IsLabelled(p) && IsNumbered(p.transitions) && IsPath(Enabled(p))
  }

  // --- The runtime form ---

  /** The one place where the storage word for the editor phase becomes the runtime word. */
  function RuntimeStatus(s: DocumentStatus): DocumentStatus {
    if s == Draft then InProgress else s
  }

  /** The word a text spells: one of the statuses, exactly as stored, or some other text. */
  function StatusWord(text: string): Word {
    if text == StatusValue(Planned) then Known(Planned)
    else if text == StatusValue(Draft) then Known(Draft)
    else if text == StatusValue(InProgress) then Known(InProgress)
    else if text == StatusValue(InReview) then Known(InReview)
    else if text == StatusValue(InApproval) then Known(InApproval)
    else if text == StatusValue(Approved) then Known(Approved)
    else if text == StatusValue(Archived) then Known(Archived)
    else Other(text)
  }

  /** A signature key's words are stripped and upper-cased before they are looked up. */
  function KeyStatus(w: Word): Word {
    match w
    case Known(_) => w
    case Other(text) => StatusWord(Upper(Strip(text)))
  }

  /** The runtime status of a stored word; words that are no status are rejected before this is used. */
  function RuntimeOf(w: Word): DocumentStatus {
    var known := KeyStatus(w);
    if known.Known? then RuntimeStatus(known.status) else Planned
  }

  function RuntimeKey(fromStatus: Word, toStatus: Word): Edge {
    Edge(RuntimeOf(fromStatus), RuntimeOf(toStatus))
  }

  /** Adjacent repeats collapsed. */
  function Collapse(s: seq<Word>): seq<Word> {
    if s == [] then []
    else
      var front, last := Collapse(s[..|s| - 1]), s[|s| - 1];
      if front != [] && front[|front| - 1] == last then front else front + [last]
  }

  /** The statuses a path visits, in the storage vocabulary. */
  function PathStatuses(ts: seq<TransitionDefinition>): (r: seq<Word>)
    ensures |r| == |ts| + 1 && r[0] == DRAFT && forall i :: 0 < i <= |ts| ==> r[i] == ts[i - 1].toStatus
  {
    seq(|ts| + 1, i requires 0 <= i <= |ts| => if i == 0 then DRAFT else ts[i - 1].toStatus)
  }

  function RuntimeWords(words: seq<Word>): (r: seq<DocumentStatus>)
    ensures |r| == |words| && forall i :: 0 <= i < |words| ==> r[i] == RuntimeOf(words[i])
  {
    seq(|words|, i requires 0 <= i < |words| => RuntimeOf(words[i]))
  }

  function RuntimePhases(statuses: seq<Word>): seq<DocumentStatus> {
    RuntimeWords(Collapse(statuses))
  }

  function SignatureKeys(ts: seq<TransitionDefinition>): seq<Edge> {
    if ts == [] then []
    else
      var last := ts[|ts| - 1];
      SignatureKeys(ts[..|ts| - 1])
      + (if last.signatureRequired then [RuntimeKey(last.fromStatus, last.toStatus)] else [])
  }

  predicate FourEyes(ts: seq<TransitionDefinition>) {
    exists i :: 0 <= i < |ts| && ts[i].fourEyesRequired
  }

  function RuntimeProfile(p: ProfileDefinition): WorkflowProfile {
    var ts := Enabled(p);
    WorkflowProfile(p.profileCode, p.profileLabel, RuntimePhases(PathStatuses(ts)), FourEyes(ts), p.controlClass,
                    SignatureKeys(ts), p.releaseEvidenceMode, p.requiresEditors, p.requiresReviewers,
                    p.requiresApprovers, p.allowsContentChanges)
  }

  /** The words that must name a status on the way to the runtime form; any other text there is an error. */
  predicate NamesStatuses(ts: seq<TransitionDefinition>) {
    forall i :: 0 <= i < |ts| ==>
      ts[i].toStatus.Known? && (ts[i].signatureRequired ==> KeyStatus(ts[i].fromStatus).Known?)
  }

  method CollapseRepeats(statuses: seq<Word>) returns (deduped: seq<Word>)
    ensures deduped == Collapse(statuses)
  {
    deduped := [];
    for i := 0 to |statuses|
      invariant deduped == Collapse(statuses[..i])
    {
      assert statuses[..i + 1][..i] == statuses[..i];
      if deduped == [] || deduped[|deduped| - 1] != statuses[i] {
        deduped := deduped + [statuses[i]];
      }
    }
    assert statuses[..|statuses|] == statuses;
  }

  method CollectSignatureKeys(enabled: seq<TransitionDefinition>) returns (keys: seq<Edge>)
    ensures keys == SignatureKeys(enabled)
  {
    keys := [];
    for i := 0 to |enabled|
      invariant keys == SignatureKeys(enabled[..i])
    {
      assert enabled[..i + 1][..i] == enabled[..i];
      if enabled[i].signatureRequired {
        keys := keys + [RuntimeKey(enabled[i].fromStatus, enabled[i].toStatus)];
      }
    }
    assert enabled[..|enabled|] == enabled;
  }

  method ToRuntimeProfile(p: ProfileDefinition) returns (profile: Option<WorkflowProfile>)
    ensures profile == if NamesStatuses(Enabled(p)) then Some(RuntimeProfile(p)) else None
  {
    var enabled := Enabled(p);
    if !NamesStatuses(enabled) {
      return None;
    }
    var deduped := CollapseRepeats(PathStatuses(enabled));
    var keys := CollectSignatureKeys(enabled);
    profile := Some(WorkflowProfile(p.profileCode, p.profileLabel, RuntimeWords(deduped), FourEyes(enabled),
                                    p.controlClass, keys, p.releaseEvidenceMode, p.requiresEditors,
                                    p.requiresReviewers, p.requiresApprovers, p.allowsContentChanges));
  }

  /** The validator's loop, check by check, with its growing sets of statuses left and edges seen. */
  method CheckTransitions(enabled: seq<TransitionDefinition>) returns (linear: bool)
    ensures linear <==> IsLinear(enabled, |enabled|)
  {
    var seenFrom: set<Word> := {};
    var seenEdges: set<(Word, Word)> := {};
    for index := 0 to |enabled|
      invariant IsLinear(enabled, index)
      invariant forall i :: 0 <= i < index ==> enabled[i].fromStatus in seenFrom
      invariant forall s :: s in seenFrom ==> exists i :: 0 <= i < index && enabled[i].fromStatus == s
      invariant forall e :: e in seenEdges ==> e.0 in seenFrom
    {
      var item := enabled[index];
      if !IsAllowedStatus(item.fromStatus) || !IsAllowedStatus(item.toStatus) {
        return false;
      }
      if item.decisionPolicy != OneOfPool && item.decisionPolicy != NoPolicy {
        return false;
      }
      if item.requiredRole.UnknownRole? || item.deadlineSeconds.Some? || item.revokeIfChanged {
        return false;
      }
      if item.requiredRole != ExpectedRole(item.fromStatus, item.toStatus) {
        return false;
      }
      var edge := (item.fromStatus, item.toStatus);
      if item.fromStatus in seenFrom || edge in seenEdges {
        return false;
      }
      seenFrom, seenEdges := seenFrom + {item.fromStatus}, seenEdges + {edge};
      if index > 0 && enabled[index - 1].toStatus != item.fromStatus {
        return false;
      }
    }
    linear := true;
  }

  method ValidateDefinition(p: ProfileDefinition) returns (accepted: bool)
    ensures accepted <==> Accepted(p)
  {
    if !IsLabelled(p) || p.transitions == [] {
      return false;
    }
    var enabled := Enabled(p);
    if enabled == [] || enabled[0].fromStatus != DRAFT || enabled[0].toStatus == DRAFT
       || enabled[|enabled| - 1].toStatus != APPROVED {
      return false;
    }
    if !IsNumbered(p.transitions) {
      return false;
    }
    var linear := CheckTransitions(enabled);
    if !linear {
      return false;
    }
    var profile := ToRuntimeProfile(p);
    PathPhases(enabled);
    PathNamesStatuses(enabled);
    accepted := profile.Some? && profile.value.phases[0] == InProgress
                && profile.value.phases[|profile.value.phases| - 1] == Approved;
  }

  // --- What an accepted profile's phases look like ---

  lemma {:induction false} NoRepeatsToCollapse(s: seq<Word>)
    requires forall i :: 0 < i < |s| ==> s[i - 1] != s[i]
    ensures Collapse(s) == s
  {
    if s != [] {
      NoRepeatsToCollapse(s[..|s| - 1]);
      assert s == s[..|s| - 1] + [s[|s| - 1]];
    }
  }

  /** Words visited at most once, then APPROVED: only a repeated final APPROVED collapses. */
  ghost predicate Visits(s: seq<Word>) {
    && |s| >= 2 && s[0] == DRAFT && s[1] != DRAFT && s[|s| - 1] == APPROVED
    && (forall i :: 0 <= i < |s| ==> IsAllowedStatus(s[i]))
    && (forall i, j :: 0 <= i < j < |s| - 1 ==> s[i] != s[j])
  }

  lemma PathStatusIsLeft(ts: seq<TransitionDefinition>, i: nat)
    requires IsPath(ts) && i < |ts|
    ensures PathStatuses(ts)[i] == ts[i].fromStatus && TransitionFits(ts[i])
  {
    if i > 0 {
      assert ts[i - 1].toStatus == ts[i].fromStatus;
    }
  }

  lemma PathIsVisits(ts: seq<TransitionDefinition>)
    requires IsPath(ts)
    ensures Visits(PathStatuses(ts))
  {
    var s, n := PathStatuses(ts), |ts|;
    forall i | 0 <= i < |s| ensures IsAllowedStatus(s[i]) {
      if i < n {
        PathStatusIsLeft(ts, i);
      }
    }
    forall i, j | 0 <= i < j < n ensures s[i] != s[j] {
      PathStatusIsLeft(ts, i);
      PathStatusIsLeft(ts, j);
    }
  }

  lemma VisitsCollapse(s: seq<Word>)
    requires Visits(s)
    ensures Collapse(s) == if s[|s| - 2] == APPROVED then s[..|s| - 1] else s
    ensures |Collapse(s)| >= 2
  {
    var n := |s| - 1;
    NoRepeatsToCollapse(s[..n]);
    if s[n - 1] != APPROVED {
      NoRepeatsToCollapse(s);
    }
  }

  /** Phases start in the editor phase, end approved, and repeat no status other than APPROVED. */
  ghost predicate GoodPhases(phases: seq<DocumentStatus>) {
    && |phases| >= 2 && phases[0] == InProgress && phases[|phases| - 1] == Approved
    && (forall i :: 0 <= i < |phases| ==> phases[i] in {InProgress, InReview, InApproval, Approved})
    && (forall i, j :: 0 <= i < j < |phases| && phases[i] == phases[j] ==> phases[i] == Approved)
  }

  /** On the allowed statuses the runtime words are distinct, and only APPROVED is shown as approved. */
  lemma RuntimeOfAllowed(a: Word, b: Word)
    requires IsAllowedStatus(a) && IsAllowedStatus(b)
    ensures RuntimeOf(a) in {InProgress, InReview, InApproval, Approved}
    ensures RuntimeOf(a) == RuntimeOf(b) <==> a == b
  {
    assert a.Known? && b.Known?;
  }

  lemma CollapsedWordsAreGood(s: seq<Word>)
    requires Visits(s)
    ensures GoodPhases(RuntimeWords(Collapse(s)))
  {
    VisitsCollapse(s);
    var words := Collapse(s);
    var phases := RuntimeWords(words);
    assert words <= s;
    forall i | 0 <= i < |phases| ensures phases[i] in {InProgress, InReview, InApproval, Approved} {
      RuntimeOfAllowed(s[i], s[i]);
    }
    forall i, j | 0 <= i < j < |phases| && phases[i] == phases[j] ensures phases[i] == Approved {
      RuntimeOfAllowed(s[i], s[j]);
    }
  }

  lemma PathPhases(ts: seq<TransitionDefinition>)
    requires IsPath(ts)
    ensures GoodPhases(RuntimePhases(PathStatuses(ts)))
  {
    PathIsVisits(ts);
    CollapsedWordsAreGood(PathStatuses(ts));
  }

  lemma PathNamesStatuses(ts: seq<TransitionDefinition>)
    requires IsPath(ts)
    ensures NamesStatuses(ts)
  {
    forall i | 0 <= i < |ts| ensures ts[i].fromStatus.Known? && ts[i].toStatus.Known? {
      assert TransitionFits(ts[i]);
    }
  }

  // --- The runtime form, spelled out ---

  /** How a stored word is shown at run time: DRAFT as IN_PROGRESS, every other status as itself. */
  ghost predicate ShownAs(w: Word, s: DocumentStatus) {
    w.Known? && s == (if w.status == Draft then InProgress else w.status)
  }

  lemma RuntimeOfShows(w: Word, s: DocumentStatus)
    requires w.Known?
    ensures RuntimeOf(w) == s <==> ShownAs(w, s)
  {
  }

  /** The edge of a transition as it is shown. */
  ghost predicate ShownEdge(t: TransitionDefinition, e: Edge) {
    ShownAs(t.fromStatus, e.source) && ShownAs(t.toStatus, e.target)
  }

  lemma {:induction false} SignatureKeysMembers(ts: seq<TransitionDefinition>, e: Edge)
    requires forall i :: 0 <= i < |ts| ==> ts[i].fromStatus.Known? && ts[i].toStatus.Known?
    ensures e in SignatureKeys(ts) <==> exists i :: 0 <= i < |ts| && ts[i].signatureRequired && ShownEdge(ts[i], e)
  {
    if ts != [] {
      var front, last := ts[..|ts| - 1], ts[|ts| - 1];
      SignatureKeysMembers(front, e);
      assert forall i :: 0 <= i < |front| ==> front[i] == ts[i];
      RuntimeOfShows(last.fromStatus, e.source);
      RuntimeOfShows(last.toStatus, e.target);
    }
  }

  lemma PathIsKnown(ts: seq<TransitionDefinition>, i: nat)
    requires IsPath(ts) && i < |ts|
    ensures ts[i].fromStatus.Known? && ts[i].toStatus.Known? && TransitionFits(ts[i])
  {
  }

  /** Which edges of an accepted definition need a signature: those of its enabled signed transitions, as shown. */
  lemma SignedEdges(p: ProfileDefinition, e: Edge)
    requires Accepted(p)
    ensures e in RuntimeProfile(p).signatureRequiredTransitions <==>
            exists t :: t in p.transitions && t.isEnabled && t.signatureRequired && ShownEdge(t, e)
  {
    var ts := Enabled(p);
    forall i | 0 <= i < |ts| ensures ts[i].fromStatus.Known? && ts[i].toStatus.Known? {
      PathIsKnown(ts, i);
    }
    SignatureKeysMembers(ts, e);
    forall t ensures t in ts <==> t in p.transitions && t.isEnabled {
      KeepMembers(p.transitions, IsEnabled(), t);
    }
  }

  /** The status a word names: a known one itself, any other text the one it spells, trimmed and in upper case. */
  ghost predicate Names(w: Word, s: DocumentStatus) {
    match w
    case Known(status) => status == s
    case Other(text) => Upper(Strip(text)) == StatusValue(s)
  }

  /** A word shown as a status, however it is spelled. */
  ghost predicate SpelledAs(w: Word, s: DocumentStatus) {
    exists named :: Names(w, named) && s == (if named == Draft then InProgress else named)
  }

  lemma KeyStatusNames(w: Word, s: DocumentStatus)
    ensures KeyStatus(w) == Known(s) <==> Names(w, s)
  {
    if w.Other? {
      var text := Upper(Strip(w.text));
      assert StatusWord(text).Known? ==> StatusValue(StatusWord(text).status) == text;
      WordsDiffer(s);
    }
  }

  lemma WordsDiffer(s: DocumentStatus)
    ensures StatusWord(StatusValue(s)) == Known(s)
  {
    StatusWordsSpelled();
  }

  lemma RuntimeOfNamed(w: Word, s: DocumentStatus)
    requires KeyStatus(w).Known?
    ensures RuntimeOf(w) == s <==> SpelledAs(w, s)
  {
    var named := KeyStatus(w).status;
    KeyStatusNames(w, named);
    forall other ensures Names(w, other) <==> other == named {
      KeyStatusNames(w, other);
    }
  }

  /** The runtime form is refused exactly if an enabled transition leads to no known status, or is signed and leaves a
      word that names none. */
  lemma RefusedWords(p: ProfileDefinition)
    ensures !NamesStatuses(Enabled(p)) <==>
            exists t :: t in p.transitions && t.isEnabled
                        && (t.toStatus.Other? || (t.signatureRequired && forall s :: !Names(t.fromStatus, s)))
  {
    var ts := Enabled(p);
    forall t ensures t in ts <==> t in p.transitions && t.isEnabled {
      KeepMembers(p.transitions, IsEnabled(), t);
    }
    forall t: TransitionDefinition ensures KeyStatus(t.fromStatus).Known? <==> exists s :: Names(t.fromStatus, s) {
      KeyKnownIffNamed(t.fromStatus);
    }
    if t :| t in p.transitions && t.isEnabled
            && (t.toStatus.Other? || (t.signatureRequired && forall s :: !Names(t.fromStatus, s))) {
      var i :| 0 <= i < |ts| && ts[i] == t;
      assert !NamesStatuses(ts);
    }
  }

  lemma KeyKnownIffNamed(w: Word)
    ensures KeyStatus(w).Known? <==> exists s :: Names(w, s)
  {
    if KeyStatus(w).Known? {
      KeyStatusNames(w, KeyStatus(w).status);
    }
    if s :| Names(w, s) {
      KeyStatusNames(w, s);
    }
  }

  /** The keys of any definition that is not refused. */
  lemma {:induction false} KeysOfAny(ts: seq<TransitionDefinition>, e: Edge)
    requires NamesStatuses(ts)
    ensures e in SignatureKeys(ts) <==>
            exists i :: 0 <= i < |ts| && ts[i].signatureRequired
                        && SpelledAs(ts[i].fromStatus, e.source) && SpelledAs(ts[i].toStatus, e.target)
  {
    if ts != [] {
      var front, last := ts[..|ts| - 1], ts[|ts| - 1];
      KeysOfAny(front, e);
      assert forall i :: 0 <= i < |front| ==> front[i] == ts[i];
      if last.signatureRequired {
        RuntimeOfNamed(last.fromStatus, e.source);
        RuntimeOfNamed(last.toStatus, e.target);
      }
    }
  }

  lemma CollapsedPath(ts: seq<TransitionDefinition>)
    requires IsPath(ts)
    ensures var words := Collapse(PathStatuses(ts));
            && |words| == (if ts[|ts| - 1].fromStatus == Known(Approved) then |ts| else |ts| + 1)
            && words == PathStatuses(ts)[..|words|]
  {
    PathIsVisits(ts);
    VisitsCollapse(PathStatuses(ts));
    PathStatusIsLeft(ts, |ts| - 1);
  }

  lemma PhaseIsShown(ts: seq<TransitionDefinition>, i: nat)
    requires IsPath(ts) && i < |RuntimePhases(PathStatuses(ts))|
    ensures var phase := RuntimePhases(PathStatuses(ts))[i];
            && i <= |ts| && (i > 0 ==> ShownAs(ts[i - 1].toStatus, phase))
            && (i < |ts| ==> ShownAs(ts[i].fromStatus, phase))
  {
    CollapsedPath(ts);
    var words := Collapse(PathStatuses(ts));
    assert words[i] == PathStatuses(ts)[i];
    if i > 0 {
      PathIsKnown(ts, i - 1);
      RuntimeOfShows(words[i], RuntimeOf(words[i]));
    }
    if i < |ts| {
      PathStatusIsLeft(ts, i);
      PathIsKnown(ts, i);
      RuntimeOfShows(words[i], RuntimeOf(words[i]));
    }
  }

  /** The phases of an accepted definition, place by place, and the places an enabled transition joins. */
  lemma PhasesPlaceByPlace(p: ProfileDefinition)
    requires Accepted(p)
    ensures var ts, phases := Enabled(p), RuntimeProfile(p).phases;
            && |phases| == (if ts[|ts| - 1].fromStatus == Known(Approved) then |ts| else |ts| + 1)
            && phases[0] == InProgress
            && (forall i :: 0 < i < |phases| ==> ShownAs(ts[i - 1].toStatus, phases[i]))
            && (forall i :: 0 <= i < |phases| && i < |ts| ==> ShownAs(ts[i].fromStatus, phases[i]))
  {
    var ts, phases := Enabled(p), RuntimeProfile(p).phases;
    CollapsedPath(ts);
    forall i | 0 <= i < |phases|
      ensures i > 0 ==> ShownAs(ts[i - 1].toStatus, phases[i])
      ensures i < |ts| ==> ShownAs(ts[i].fromStatus, phases[i])
    {
      PhaseIsShown(ts, i);
    }
  }

  /** So the signed edges are consecutive phases, apart from a repeated final approval. */
  lemma SignedEdgesAreConsecutive(p: ProfileDefinition, e: Edge)
    requires Accepted(p) && e in RuntimeProfile(p).signatureRequiredTransitions
    ensures var phases := RuntimeProfile(p).phases;
            || e == Edge(Approved, Approved)
            || exists i :: 0 <= i < |phases| - 1 && phases[i] == e.source && phases[i + 1] == e.target
  {
    var ts, phases := Enabled(p), RuntimeProfile(p).phases;
    SignedEdges(p, e);
    var t :| t in p.transitions && t.isEnabled && t.signatureRequired && ShownEdge(t, e);
    KeepMembers(p.transitions, IsEnabled(), t);
    var i :| 0 <= i < |ts| && ts[i] == t;
    PhasesPlaceByPlace(p);
    if i + 1 < |phases| {
      assert phases[i] == e.source && phases[i + 1] == e.target;
    } else {
      assert i == |ts| - 1;
    }
  }

  /** Everything else is taken over; four eyes are needed if any enabled transition needs them. */
  lemma OtherRuntimeFields(p: ProfileDefinition)
    ensures var r := RuntimeProfile(p);
            && r.profileId == p.profileCode && r.profileLabel == p.profileLabel && r.controlClass == p.controlClass
            && r.releaseEvidenceMode == p.releaseEvidenceMode && r.requiresEditors == p.requiresEditors
            && r.requiresReviewers == p.requiresReviewers && r.requiresApprovers == p.requiresApprovers
            && r.allowsContentChanges == p.allowsContentChanges
            && (r.fourEyesRequired <==> exists t :: t in p.transitions && t.isEnabled && t.fourEyesRequired)
  {
    var ts := Enabled(p);
    forall t ensures t in ts <==> t in p.transitions && t.isEnabled {
      KeepMembers(p.transitions, IsEnabled(), t);
    }
    if t :| t in p.transitions && t.isEnabled && t.fourEyesRequired {
      var i :| 0 <= i < |ts| && ts[i] == t;
    }
  }

  // --- What the validator accepts, spelled out ---

  /** Who acts at which status. */
  ghost predicate RoleActs(t: TransitionDefinition) {
    && (t.fromStatus == Known(Draft) ==> t.requiredRole == Editor)
    && (t.fromStatus == Known(InReview) ==> t.requiredRole == Reviewer)
    && (t.fromStatus == Known(InApproval) ==> t.requiredRole == Approver)
    && (t.fromStatus == Known(Approved) ==>
          t.requiredRole == if t.toStatus == Known(Approved) then Approver else NoRole)
  }

  ghost predicate OrdinaryTransition(t: TransitionDefinition) {
    && t.fromStatus in {Known(Draft), Known(InReview), Known(InApproval), Known(Approved)}
    && t.toStatus in {Known(Draft), Known(InReview), Known(InApproval), Known(Approved)}
    && RoleActs(t) && t.decisionPolicy in {OneOfPool, NoPolicy} && t.deadlineSeconds == None && !t.revokeIfChanged
  }

  /** The first transition starts at DRAFT, every other one where the one before it ended. */
  ghost predicate Follows(ts: seq<TransitionDefinition>, i: nat)
    requires i < |ts|
  {
    ts[i].fromStatus == if i == 0 then Known(Draft) else ts[i - 1].toStatus
  }

  /** Ordinary transitions one after another from DRAFT to APPROVED that leave no status twice, and DRAFT at once. */
  ghost predicate LeadsToApproval(ts: seq<TransitionDefinition>) {
    && ts != []
    && (forall i :: 0 <= i < |ts| ==> OrdinaryTransition(ts[i]))
    && (forall i :: 0 <= i < |ts| ==> Follows(ts, i))
    && (forall i, j :: 0 <= i < j < |ts| ==> ts[i].fromStatus != ts[j].fromStatus)
    && ts[0].toStatus != Known(Draft) && ts[|ts| - 1].toStatus == Known(Approved)
  }

  lemma PathLeadsToApproval(ts: seq<TransitionDefinition>)
    ensures IsPath(ts) <==> LeadsToApproval(ts)
  {
    forall i | 0 <= i < |ts| ensures TransitionFits(ts[i]) <==> OrdinaryTransition(ts[i]) {
      FitsIsOrdinary(ts[i]);
    }
    if LeadsToApproval(ts) {
      forall i | 0 < i < |ts| ensures ts[i - 1].toStatus == ts[i].fromStatus {
        assert Follows(ts, i);
      }
      assert Follows(ts, 0) && IsLinear(ts, |ts|);
    }
    if IsPath(ts) {
      forall i | 0 <= i < |ts| ensures Follows(ts, i) {
        assert i > 0 ==> ts[i - 1].toStatus == ts[i].fromStatus;
      }
    }
  }

  lemma FitsIsOrdinary(t: TransitionDefinition)
    ensures TransitionFits(t) <==> OrdinaryTransition(t)
  {
  }

  /** Accepted definitions: named, numbered from one, and the enabled transitions lead to approval. */
  lemma AcceptedByFields(p: ProfileDefinition)
    ensures Accepted(p) <==>
            && Strip(p.profileCode) != "" && Strip(p.profileLabel) != ""
            && (forall i :: 0 <= i < |p.transitions| ==> p.transitions[i].transitionNo == i + 1)
            && LeadsToApproval(Keep(p.transitions, (t: TransitionDefinition) => t.isEnabled))
  {
    SameFilter(p.transitions, (t: TransitionDefinition) => t.isEnabled, IsEnabled());
    PathLeadsToApproval(Enabled(p));
  }

  lemma {:induction false} SameFilter<T>(s: seq<T>, p: T -> bool, q: T -> bool)
    requires forall x :: x in s ==> (p(x) <==> q(x))
    ensures Keep(s, p) == Keep(s, q)
  {
    if s != [] {
      SameFilter(s[1..], p, q);
    }
  }

  // --- Walking the phases ---

  datatype WalkError = StatusNotInProfile | AlreadyTerminal
  datatype WalkResult = Reached(status: DocumentStatus) | Stuck(error: WalkError)

  function IndexOf(phases: seq<DocumentStatus>, s: DocumentStatus, at: nat): Option<nat>
    requires at <= |phases|
    decreases |phases| - at
  {
    if at == |phases| then None else if phases[at] == s then Some(at) else IndexOf(phases, s, at + 1)
  }

  function NextStatus(phases: seq<DocumentStatus>, current: DocumentStatus): WalkResult {
    match IndexOf(phases, current, 0)
    case None => Stuck(StatusNotInProfile)
    case Some(i) => if i + 1 >= |phases| then Stuck(AlreadyTerminal) else Reached(phases[i + 1])
  }

  function Walk(phases: seq<DocumentStatus>, from: DocumentStatus, steps: nat): WalkResult
    decreases steps
  {
    if steps == 0 then Reached(from)
    else match NextStatus(phases, from)
      case Stuck(e) => Stuck(e)
      case Reached(next) => Walk(phases, next, steps - 1)
  }

  lemma {:induction false} FirstIndex(phases: seq<DocumentStatus>, at: nat, i: nat)
    requires at <= i < |phases| && forall k :: at <= k < i ==> phases[k] != phases[i]
    ensures IndexOf(phases, phases[i], at) == Some(i)
    decreases i - at
  {
    if at < i {
      FirstIndex(phases, at + 1, i);
    }
  }

  lemma {:induction false} WalkReaches(phases: seq<DocumentStatus>, i: nat, k: nat)
    requires GoodPhases(phases) && i <= k < |phases|
    requires forall j :: 0 <= j < k ==> phases[j] != Approved
    ensures Walk(phases, phases[i], k - i) == Reached(phases[k])
    decreases k - i
  {
    if i < k {
      FirstIndex(phases, 0, i);
      WalkReaches(phases, i + 1, k);
    }
  }

  /** The first approved phase comes after at most three others: there are only three other statuses. */
  lemma FirstApproved(phases: seq<DocumentStatus>) returns (k: nat)
    requires GoodPhases(phases)
    ensures 1 <= k <= 3 && k < |phases| && phases[k] == Approved && forall j :: 0 <= j < k ==> phases[j] != Approved
  {
    if phases[1] == Approved {
      k := 1;
    } else if phases[2] == Approved {
      k := 2;
    } else {
      assert phases[0] != phases[1] && phases[0] != phases[2] && phases[1] != phases[2];
      k := 3;
    }
  }

  /** Every accepted definition runs: from the editor phase the walk reaches APPROVED within three steps. */
  lemma AcceptedProfilesReachApproved(p: ProfileDefinition) returns (steps: nat)
    requires Accepted(p)
    ensures var phases := RuntimeProfile(p).phases;
            GoodPhases(phases) && 1 <= steps <= 3 && Walk(phases, InProgress, steps) == Reached(Approved)
  {
    PathPhases(Enabled(p));
    var phases := RuntimeProfile(p).phases;
    steps := FirstApproved(phases);
    WalkReaches(phases, 0, steps);
  }
}
